/** The export side of the backup: for every selected schema, dump it to
    `<db>.sql` in the backup directory; a dump larger than the threshold is
    cut by lines into `<db>.sql.partNNN` files and removed; every remaining
    file is gzipped to `<file>.gz` and the uncompressed file is deleted.

    The backup directory is a map from entry names to file contents. The
    dump text `mysqldump` would write for each schema is an input: a schema
    with no dump is one whose `mysqldump` failed. */
module DatabaseExport {
  import opened Wrappers
  import opened Strings
  import opened Unicode
  import opened Decimal
  import opened Codec
  import opened Chunking

  /** `this.chunkSize`: 50 MiB. */
  const DefaultChunkSize: nat := 50 * 1024 * 1024

  // ---------------------------------------------------------------------
  // The local address and the send-server gate.

  /** One entry of `os.networkInterfaces()`. */
  datatype NetDetails = NetDetails(family: string, internal: bool, address: string)

  predicate IsExternalIPv4(d: NetDetails) {
    d.family == "IPv4" && !d.internal
  }

  /** The address of the first external IPv4 entry, if there is one. */
  function FirstExternal(ds: seq<NetDetails>): (r: Option<string>)
    ensures r.None? <==> forall i :: 0 <= i < |ds| ==> !IsExternalIPv4(ds[i])
    ensures r.Some? ==> exists i :: 0 <= i < |ds| && IsExternalIPv4(ds[i]) && ds[i].address == r.value
                          && forall j :: 0 <= j < i ==> !IsExternalIPv4(ds[j])
  {
    if ds == [] then None
    else if IsExternalIPv4(ds[0]) then Some(ds[0].address)
    else
      var r := FirstExternal(ds[1..]);
      assert forall i :: 1 <= i < |ds| ==> ds[i] == ds[1..][i - 1];
      if r.Some? then
        var i :| 0 <= i < |ds[1..]| && IsExternalIPv4(ds[1..][i]) && ds[1..][i].address == r.value
                 && forall j :: 0 <= j < i ==> !IsExternalIPv4(ds[1..][j]);
        assert forall j :: 0 <= j < i + 1 ==> !IsExternalIPv4(ds[j]) by {
          forall j | 0 <= j < i + 1 ensures !IsExternalIPv4(ds[j]) {
            if j > 0 {
              assert ds[j] == ds[1..][j - 1];
            }
          }
        }
        r
      else r
  }

  lemma FirstExternalAppend(a: seq<NetDetails>, b: seq<NetDetails>)
    ensures FirstExternal(a + b) == if FirstExternal(a).Some? then FirstExternal(a) else FirstExternal(b)
    decreases |a|
  {
    if a != [] {
      assert (a + b)[0] == a[0] && (a + b)[1..] == a[1..] + b;
      FirstExternalAppend(a[1..], b);
    } else {
      assert a + b == b;
    }
  }

  /** Scanning one entry of an interface's list. */
  lemma FirstExternalFrom(ds: seq<NetDetails>, j: nat)
    requires j < |ds|
    ensures FirstExternal(ds[j..]) == if IsExternalIPv4(ds[j]) then Some(ds[j].address) else FirstExternal(ds[j + 1..])
  {
    assert ds[j..][0] == ds[j] && ds[j..][1..] == ds[j + 1..];
  }

  /** Scanning one interface: its first external entry, else the later ones'. */
  lemma FirstExternalOfInterface(interfaces: seq<seq<NetDetails>>, i: nat)
    requires i < |interfaces|
    ensures FirstExternal(Flatten(interfaces[i..]))
      == if FirstExternal(interfaces[i]).Some? then FirstExternal(interfaces[i]) else FirstExternal(Flatten(interfaces[i + 1..]))
  {
    assert interfaces[i..][0] == interfaces[i] && interfaces[i..][1..] == interfaces[i + 1..];
    FirstExternalAppend(interfaces[i], Flatten(interfaces[i + 1..]));
  }

  /** What `getLocalIPAddress` returns for the interface lists in the order
      `Object.values` gives them: the first external IPv4 address, else the
      loopback address. */
  function LocalAddress(interfaces: seq<seq<NetDetails>>): string
  {
    FirstExternal(Flatten(interfaces)).GetOr("127.0.0.1")
  }

  /** The gate at the top of `exportDatabases`: exactly one `send_servers`
      row, whose comma-separated value lists this host's address. */
  predicate SendServerGate(rows: seq<string>, localAddress: string) {
    |rows| == 1 && localAddress in SplitOn(rows[0], ',')
  }

  /** A row naming the address among others passes the gate. */
  lemma GateAcceptsListedAddress(servers: seq<string>, localAddress: string)
    requires |servers| >= 1 && localAddress in servers
    requires forall i :: 0 <= i < |servers| ==> ',' !in servers[i]
    ensures SendServerGate([JoinWith(servers, ",")], localAddress)
  {
    SplitJoinWith(servers, ',');
  }

  /** The match is on whole entries only: a longer address sharing a
      prefix does not let this host through. */
  lemma GateRejectsPrefixOfEntry()
    ensures !SendServerGate(["10.0.0.11,10.0.0.12"], "10.0.0.1")
  {
    var row := "10.0.0.11,10.0.0.12";
    SplitJoinWith(["10.0.0.11", "10.0.0.12"], ',');
    assert JoinWith(["10.0.0.11", "10.0.0.12"], [',']) == row;
  }

  /** Two or more rows close the gate whatever they say. */
  lemma GateNeedsExactlyOneRow(rows: seq<string>, localAddress: string)
    requires |rows| != 1
    ensures !SendServerGate(rows, localAddress)
  {
  }

  // ---------------------------------------------------------------------
  // Schema selection.

  /** The schemas the `information_schema` query leaves out. */
  const SystemSchemas: set<string> := {"phpmyadmin", "mysql", "information_schema", "performance_schema", "sys"}

  /** The schema names to back up, in the order the query returned them. */
  function SelectDatabases(schemas: seq<string>, prefix: Option<string>): (selected: seq<string>)
    ensures forall d :: d in selected <==> d in schemas && d !in SystemSchemas && Selected(d, prefix)
    ensures IsSubsequence(selected, schemas)
    decreases |schemas|
  {
    if schemas == [] then []
    else
      var rest := SelectDatabases(schemas[1..], prefix);
      assert forall d :: d in schemas <==> d == schemas[0] || d in schemas[1..];
      if schemas[0] !in SystemSchemas && Selected(schemas[0], prefix) then [schemas[0]] + rest
      else
        SubsequenceSkip(rest, schemas);
        rest
  }


  /** Without a prefix every non-system schema is kept, in order. */
  lemma NoPrefixKeepsAll(schemas: seq<string>, prefix: Option<string>)
    requires prefix.None? || prefix == Some("")
    requires forall i :: 0 <= i < |schemas| ==> schemas[i] !in SystemSchemas
    ensures SelectDatabases(schemas, prefix) == schemas
    decreases |schemas|
  {
    if schemas != [] {
      NoPrefixKeepsAll(schemas[1..], prefix);
      assert schemas == [schemas[0]] + schemas[1..];
    }
  }

  // ---------------------------------------------------------------------
  // Names and the effect of one dump on the backup directory.

  /** `path.join(BACKUP_DIRECTORY, `${database}.sql`)`, as a directory entry. */
  function SqlName(database: string): string {
    database + ".sql"
  }

  /** `${file}.gz`. */
  function GzName(file: string): string {
    file + ".gz"
  }

  function GzNames(names: seq<string>): (gz: seq<string>)
    ensures |gz| == |names|
    ensures forall k :: 0 <= k < |names| ==> gz[k] == GzName(names[k])
  {
    seq(|names|, k requires 0 <= k < |names| => GzName(names[k]))
  }

  /** No file of the list is the `.gz` of another (or of itself). */
  predicate NoGzClash(names: seq<string>) {
    forall a, b :: a in names && b in names ==> GzName(a) != b
  }

  /** The lines of a dump, divided into the parts the splitter writes. */
  function PartsOfDump(dump: string, chunkSize: nat): seq<seq<string>>
  {
    Chunks(SplitLines(dump), chunkSize)
  }

  /** The size test of `dumpAndCompress`: `stats.size > this.chunkSize`,
      where the size is the UTF-8 length of the dump as written. */
  predicate IsSplit(dump: string, chunkSize: nat) {
    ByteLength(dump) > chunkSize
  }

  /** The files `dumpAndCompress` compresses, in order. */
  function ToCompress(database: string, dump: string, chunkSize: nat): seq<string>
  {
    if IsSplit(dump, chunkSize) then PartNames(SqlName(database), |PartsOfDump(dump, chunkSize)|)
    else [SqlName(database)]
  }

  /** What each of those files holds when it is compressed. */
  function UnitTexts(dump: string, chunkSize: nat): (texts: seq<string>)
    ensures IsSplit(dump, chunkSize) ==> |texts| == |PartsOfDump(dump, chunkSize)|
    ensures !IsSplit(dump, chunkSize) ==> texts == [dump]
  {
    var parts := PartsOfDump(dump, chunkSize);
    if IsSplit(dump, chunkSize) then seq(|parts|, k requires 0 <= k < |parts| => JoinWith(parts[k], "\n"))
    else [dump]
  }

  /** The directory after writing the parts from index `k` on. */
  function WriteParts(m: map<string, string>, path: string, parts: seq<seq<string>>, k: nat): map<string, string>
    decreases |parts|
  {
    if parts == [] then m
    else WriteParts(m[PartName(path, k) := JoinWith(parts[0], "\n")], path, parts[1..], k + 1)
  }

  lemma DistinctTail(names: seq<string>)
    requires names != [] && Distinct(names)
    ensures Distinct(names[1..]) && names[0] !in names[1..]
  {
    forall i, j | 0 <= i < j < |names[1..]| ensures names[1..][i] != names[1..][j] {
      assert names[1..][i] == names[i + 1] && names[1..][j] == names[j + 1];
    }
    forall j | 0 <= j < |names[1..]| ensures names[1..][j] != names[0] {
      assert names[1..][j] == names[j + 1];
    }
  }

  /** The directory after the compress loop: each file in turn is gzipped
      next to itself and then deleted. */
  function CompressEach(m: map<string, string>, names: seq<string>): map<string, string>
    requires Distinct(names)
    requires forall n :: n in names ==> n in m
    decreases |names|
  {
    if names == [] then m
    else
      var f := names[0];
      DistinctTail(names);
      CompressEach(m[GzName(f) := Gzip(m[f])] - {f}, names[1..])
  }

  lemma PartNamesDistinct(path: string, n: nat)
    ensures Distinct(PartNames(path, n))
  {
    var names := PartNames(path, n);
    forall i, j | 0 <= i < j < n ensures names[i] != names[j] {
      if names[i] == names[j] {
        PartNameInjective(path, i, j);
      }
    }
  }

  lemma TailMembers(names: seq<string>)
    requires names != []
    ensures forall x :: x in names[1..] ==> x in names
    ensures names[0] in names
  {
    forall x | x in names[1..] ensures x in names {
      var j :| 0 <= j < |names[1..]| && names[1..][j] == x;
      assert names[j + 1] == x;
    }
  }

  lemma GzNameInjective(a: string, b: string)
    requires GzName(a) == GzName(b)
    ensures a == b
  {
    assert a == GzName(a)[..|a|] && b == GzName(b)[..|b|];
  }

  lemma GzNamesCons(names: seq<string>)
    requires names != []
    ensures GzNames(names) == [GzName(names[0])] + GzNames(names[1..])
  {
  }

  // ---------------------------------------------------------------------
  // What the splitter writes.

  /** The first part written keeps its text: no later part has its name. */
  lemma WritePartsHead(m: map<string, string>, path: string, parts: seq<seq<string>>, k: nat)
    requires parts != []
    ensures PartName(path, k) in WriteParts(m, path, parts, k)
    ensures WriteParts(m, path, parts, k)[PartName(path, k)] == JoinWith(parts[0], "\n")
  {
    var m1 := m[PartName(path, k) := JoinWith(parts[0], "\n")];
    forall j | k + 1 <= j < k + |parts| ensures PartName(path, k) != PartName(path, j) {
      PartNamesDiffer(path, k, j);
    }
    WritePartsKeeps(m1, path, parts[1..], k + 1);
  }

  lemma {:induction false} WritePartsValue(m: map<string, string>, path: string, parts: seq<seq<string>>, k: nat, i: nat)
    requires k <= i < k + |parts|
    ensures PartName(path, i) in WriteParts(m, path, parts, k)
    ensures WriteParts(m, path, parts, k)[PartName(path, i)] == JoinWith(parts[i - k], "\n")
    decreases |parts|
  {
    if i == k {
      WritePartsHead(m, path, parts, k);
    } else {
      var m1 := m[PartName(path, k) := JoinWith(parts[0], "\n")];
      WritePartsValue(m1, path, parts[1..], k + 1, i);
      assert parts[1..][i - (k + 1)] == parts[i - k];
    }
  }

  lemma WritePartsValues(m: map<string, string>, path: string, parts: seq<seq<string>>, k: nat)
    ensures forall i :: k <= i < k + |parts| ==>
      PartName(path, i) in WriteParts(m, path, parts, k) &&
      WriteParts(m, path, parts, k)[PartName(path, i)] == JoinWith(parts[i - k], "\n")
  {
    forall i | k <= i < k + |parts|
      ensures PartName(path, i) in WriteParts(m, path, parts, k)
      ensures WriteParts(m, path, parts, k)[PartName(path, i)] == JoinWith(parts[i - k], "\n")
    {
      WritePartsValue(m, path, parts, k, i);
    }
  }

  lemma {:induction false} WritePartsKeeps(m: map<string, string>, path: string, parts: seq<seq<string>>, k: nat)
    ensures forall n :: n in m && (forall i :: k <= i < k + |parts| ==> n != PartName(path, i)) ==>
      n in WriteParts(m, path, parts, k) && WriteParts(m, path, parts, k)[n] == m[n]
    decreases |parts|
  {
    if parts != [] {
      var m1 := m[PartName(path, k) := JoinWith(parts[0], "\n")];
      WritePartsKeeps(m1, path, parts[1..], k + 1);
    }
  }

  lemma {:induction false} WritePartsKeys(m: map<string, string>, path: string, parts: seq<seq<string>>, k: nat)
    ensures forall n :: n in WriteParts(m, path, parts, k) <==>
      n in m || exists i :: k <= i < k + |parts| && n == PartName(path, i)
    decreases |parts|
  {
    if parts != [] {
      var m1 := m[PartName(path, k) := JoinWith(parts[0], "\n")];
      WritePartsKeys(m1, path, parts[1..], k + 1);
    }
  }

  // ---------------------------------------------------------------------
  // One iteration of the splitter's loop, and its end.

  lemma SizePush(temp: seq<string>, line: string)
    ensures Size(temp + [line]) == Size(temp) + LineBytes(line)
  {
    assert (temp + [line])[..|temp|] == temp;
  }

  lemma PartNamesPush(path: string, n: nat)
    ensures PartNames(path, n + 1) == PartNames(path, n) + [PartName(path, n)]
  {
  }

  /** A line that brings the counter to the threshold flushes the part. */
  lemma SplitStepFlush(m: map<string, string>, path: string, lines: seq<string>, i: nat, temp: seq<string>, index: nat, chunkSize: nat)
    requires i < |lines| && Size(temp + [lines[i]]) >= chunkSize
    ensures WriteParts(m, path, ChunksFrom(lines[i..], temp, chunkSize), index)
         == WriteParts(m[PartName(path, index) := JoinWith(temp + [lines[i]], "\n")], path, ChunksFrom(lines[i + 1..], [], chunkSize), index + 1)
    ensures |ChunksFrom(lines[i..], temp, chunkSize)| == 1 + |ChunksFrom(lines[i + 1..], [], chunkSize)|
  {
    var rest := lines[i..];
    assert rest[0] == lines[i] && rest[1..] == lines[i + 1..];
    var t := temp + [lines[i]];
    var tail := ChunksFrom(lines[i + 1..], [], chunkSize);
    assert ChunksFrom(rest, temp, chunkSize) == [t] + tail;
    assert ([t] + tail)[0] == t && ([t] + tail)[1..] == tail;
  }

  /** A line that leaves the counter below the threshold is kept pending. */
  lemma SplitStepKeep(lines: seq<string>, i: nat, temp: seq<string>, chunkSize: nat)
    requires i < |lines| && Size(temp + [lines[i]]) < chunkSize
    ensures ChunksFrom(lines[i..], temp, chunkSize) == ChunksFrom(lines[i + 1..], temp + [lines[i]], chunkSize)
  {
    var rest := lines[i..];
    assert rest[0] == lines[i] && rest[1..] == lines[i + 1..];
  }

  /** The split loop's invariant: the parts still to come, written from
      `index` on, give the final directory, and the names so far are the
      first `index` part names. */
  ghost predicate SplitInvariant(files: map<string, string>, path: string, lines: seq<string>, i: nat,
                                 temp: seq<string>, index: nat, splitFiles: seq<string>, chunkSize: nat,
                                 count: nat, target: map<string, string>)
    requires i <= |lines|
  {
    && index + |ChunksFrom(lines[i..], temp, chunkSize)| == count
    && splitFiles == PartNames(path, index)
    && WriteParts(files, path, ChunksFrom(lines[i..], temp, chunkSize), index) == target
  }

  /** The invariant carried over a line that completes a part. */
  lemma SplitFlushKeeps(files: map<string, string>, path: string, lines: seq<string>, i: nat,
                        temp: seq<string>, index: nat, splitFiles: seq<string>, chunkSize: nat,
                        count: nat, target: map<string, string>)
    requires i < |lines| && Size(temp + [lines[i]]) >= chunkSize
    requires SplitInvariant(files, path, lines, i, temp, index, splitFiles, chunkSize, count, target)
    ensures SplitInvariant(files[PartName(path, index) := JoinWith(temp + [lines[i]], "\n")], path, lines, i + 1,
                           [], index + 1, splitFiles + [PartName(path, index)], chunkSize, count, target)
  {
    SplitStepFlush(files, path, lines, i, temp, index, chunkSize);
    PartNamesPush(path, index);
  }

  /** The invariant carried over a line that stays pending. */
  lemma SplitKeepKeeps(files: map<string, string>, path: string, lines: seq<string>, i: nat,
                       temp: seq<string>, index: nat, splitFiles: seq<string>, chunkSize: nat,
                       count: nat, target: map<string, string>)
    requires i < |lines| && Size(temp + [lines[i]]) < chunkSize
    requires SplitInvariant(files, path, lines, i, temp, index, splitFiles, chunkSize, count, target)
    ensures SplitInvariant(files, path, lines, i + 1, temp + [lines[i]], index, splitFiles, chunkSize, count, target)
  {
    SplitStepKeep(lines, i, temp, chunkSize);
  }

  /** At the end the pending lines, if any, are the last part. */
  lemma SplitEnd(m: map<string, string>, path: string, temp: seq<string>, index: nat, chunkSize: nat)
    ensures |ChunksFrom([], temp, chunkSize)| == if temp == [] then 0 else 1
    ensures WriteParts(m, path, ChunksFrom([], temp, chunkSize), index)
         == if temp == [] then m else m[PartName(path, index) := JoinWith(temp, "\n")]
  {
    if temp != [] {
      assert ChunksFrom([], temp, chunkSize) == [temp];
      assert [temp][1..] == [];
    }
  }

  // ---------------------------------------------------------------------
  // What the compress loop does.

  /** One iteration of the compress loop. */
  lemma CompressEachStep(m: map<string, string>, names: seq<string>)
    requires names != [] && Distinct(names)
    requires forall n :: n in names ==> n in m
    ensures var m1 := m[GzName(names[0]) := Gzip(m[names[0]])] - {names[0]};
      && Distinct(names[1..])
      && (forall n :: n in names[1..] ==> n in m1)
      && CompressEach(m, names) == CompressEach(m1, names[1..])
  {
    DistinctTail(names);
    TailMembers(names);
  }

  lemma GzNamesPush(names: seq<string>, i: nat)
    requires i < |names|
    ensures GzNames(names[..i + 1]) == GzNames(names[..i]) + [GzName(names[i])]
  {
  }

  lemma {:induction false} CompressEachKeeps(m: map<string, string>, names: seq<string>)
    requires Distinct(names)
    requires forall n :: n in names ==> n in m
    ensures forall n :: n in m && n !in names && n !in GzNames(names) ==>
      n in CompressEach(m, names) && CompressEach(m, names)[n] == m[n]
    decreases |names|
  {
    if names != [] {
      var f := names[0];
      DistinctTail(names);
      GzNamesCons(names);
      var m1 := m[GzName(f) := Gzip(m[f])] - {f};
      CompressEachKeeps(m1, names[1..]);
    }
  }

  lemma {:induction false} CompressEachKeys(m: map<string, string>, names: seq<string>)
    requires Distinct(names) && NoGzClash(names)
    requires forall n :: n in names ==> n in m
    ensures forall n :: n in CompressEach(m, names) <==> (n in m && n !in names) || n in GzNames(names)
    decreases |names|
  {
    if names != [] {
      var f := names[0];
      DistinctTail(names);
      GzNamesCons(names);
      var tail := names[1..];
      var m1 := m[GzName(f) := Gzip(m[f])] - {f};
      TailMembers(names);
      assert NoGzClash(tail);
      CompressEachKeys(m1, tail);
      assert GzName(f) !in tail;
      assert GzName(f) != f by {
        assert |GzName(f)| > |f|;
      }
      var r := CompressEach(m, names);
      assert r == CompressEach(m1, tail);
      forall n ensures n in r <==> (n in m && n !in names) || n in GzNames(names) {
        assert n in names <==> n == f || n in tail;
        assert n in GzNames(names) <==> n == GzName(f) || n in GzNames(tail);
        assert n in m1 <==> (n in m || n == GzName(f)) && n != f;
      }
    }
  }

  lemma {:induction false} CompressEachValues(m: map<string, string>, names: seq<string>)
    requires Distinct(names) && NoGzClash(names)
    requires forall n :: n in names ==> n in m
    ensures forall f :: f in names ==>
      GzName(f) in CompressEach(m, names) && CompressEach(m, names)[GzName(f)] == Gzip(m[f])
    decreases |names|
  {
    if names != [] {
      var f := names[0];
      var tail := names[1..];
      DistinctTail(names);
      var m1 := m[GzName(f) := Gzip(m[f])] - {f};
      TailMembers(names);
      assert NoGzClash(tail);
      CompressEachValues(m1, tail);
      CompressEachKeeps(m1, tail);
      assert GzName(f) !in tail;
      assert GzName(f) !in GzNames(tail) by {
        if GzName(f) in GzNames(tail) {
          var j :| 0 <= j < |tail| && GzNames(tail)[j] == GzName(f);
          GzNameInjective(tail[j], f);
        }
      }
      assert GzName(f) != f by {
        assert |GzName(f)| > |f|;
      }
      forall g | g in tail ensures m1[g] == m[g] {
        assert g != f && g != GzName(f);
      }
    }
  }

  // ---------------------------------------------------------------------
  // One database: dump, split when too large, compress.

  lemma SqlNameLast(database: string)
    ensures |SqlName(database)| > 0 && SqlName(database)[|SqlName(database)| - 1] == 'l'
  {
  }

  lemma GzNameLast(file: string)
    ensures |GzName(file)| > |file| && GzName(file)[|GzName(file)| - 1] == 'z'
  {
  }

  /** A `.gz` name is never a part name: one ends in `z`, the other in a digit. */
  lemma PartNamesNoGzClash(path: string, n: nat)
    ensures NoGzClash(PartNames(path, n))
  {
    var names := PartNames(path, n);
    forall a, b | a in names && b in names ensures GzName(a) != b {
      var j :| 0 <= j < n && names[j] == b;
      PartNameEndsWithDigit(path, j);
      GzNameLast(a);
    }
  }

  /** The directory just before the compress loop: the dump written and,
      when it is too large, its parts written and the dump removed. */
  function Staged(m: map<string, string>, database: string, dump: string, chunkSize: nat): map<string, string>
  {
    var sql := SqlName(database);
    if IsSplit(dump, chunkSize) then WriteParts(m[sql := dump], sql, PartsOfDump(dump, chunkSize), 0) - {sql}
    else m[sql := dump]
  }

  lemma PartNamesLonger(path: string, n: nat)
    ensures forall k :: 0 <= k < n ==> PartName(path, k) != path
  {
    forall k | 0 <= k < n ensures PartName(path, k) != path {
      assert |PartName(path, k)| > |path|;
    }
  }

  /** Each file about to be compressed is there, holding its text. */
  lemma StagedTexts(m: map<string, string>, database: string, dump: string, chunkSize: nat)
    ensures var names := ToCompress(database, dump, chunkSize);
      var texts := UnitTexts(dump, chunkSize);
      var staged := Staged(m, database, dump, chunkSize);
      && |names| == |texts| && Distinct(names) && NoGzClash(names)
      && (forall k :: 0 <= k < |names| ==> names[k] in staged && staged[names[k]] == texts[k])
  {
    var sql := SqlName(database);
    if IsSplit(dump, chunkSize) {
      var parts := PartsOfDump(dump, chunkSize);
      PartNamesDistinct(sql, |parts|);
      PartNamesNoGzClash(sql, |parts|);
      SplitStagedTexts(m[sql := dump], sql, parts);
    } else {
      assert |GzName(sql)| > |sql|;
    }
  }

  /** After a split every part holds its lines joined by line feeds. */
  lemma SplitStagedTexts(m: map<string, string>, sql: string, parts: seq<seq<string>>)
    ensures var names := PartNames(sql, |parts|);
      var staged := WriteParts(m, sql, parts, 0) - {sql};
      forall k :: 0 <= k < |names| ==> names[k] in staged && staged[names[k]] == JoinWith(parts[k], "\n")
  {
    WritePartsValues(m, sql, parts, 0);
    PartNamesLonger(sql, |parts|);
  }

  /** Apart from the files to compress (and the dump itself) the staged
      directory is the old one. */
  lemma StagedRest(m: map<string, string>, database: string, dump: string, chunkSize: nat)
    ensures var names := ToCompress(database, dump, chunkSize);
      var staged := Staged(m, database, dump, chunkSize);
      && (forall n :: n in staged <==> (n in m && n != SqlName(database)) || n in names)
      && (forall n :: n in m && n != SqlName(database) && n !in names ==> staged[n] == m[n])
  {
    if IsSplit(dump, chunkSize) {
      var sql := SqlName(database);
      var parts := PartsOfDump(dump, chunkSize);
      SplitStagedKeys(m[sql := dump], sql, parts);
      SplitStagedValues(m[sql := dump], sql, parts);
    }
  }

  /** The entries a split leaves: the old ones but the dump, and the parts. */
  lemma SplitStagedKeys(m: map<string, string>, sql: string, parts: seq<seq<string>>)
    ensures forall n :: n in WriteParts(m, sql, parts, 0) - {sql} <==> (n in m && n != sql) || n in PartNames(sql, |parts|)
  {
    WritePartsKeys(m, sql, parts, 0);
    PartNamesLonger(sql, |parts|);
    forall n ensures (exists i :: 0 <= i < |parts| && n == PartName(sql, i)) <==> n in PartNames(sql, |parts|) {
      PartNamesMember(sql, |parts|, n);
    }
  }

  lemma PartNamesMember(path: string, count: nat, n: string)
    ensures (exists i :: 0 <= i < count && n == PartName(path, i)) <==> n in PartNames(path, count)
  {
    var names := PartNames(path, count);
    if n in names {
      var i :| 0 <= i < |names| && names[i] == n;
      assert n == PartName(path, i);
    }
  }

  /** Entries that are not parts keep their content through a split. */
  lemma SplitStagedValues(m: map<string, string>, sql: string, parts: seq<seq<string>>)
    ensures forall n :: n in m && n != sql && n !in PartNames(sql, |parts|) ==>
      n in WriteParts(m, sql, parts, 0) - {sql} && (WriteParts(m, sql, parts, 0) - {sql})[n] == m[n]
  {
    var names := PartNames(sql, |parts|);
    WritePartsKeeps(m, sql, parts, 0);
    forall n | n in m && n != sql && n !in names ensures forall i :: 0 <= i < |parts| ==> n != PartName(sql, i) {
      forall i | 0 <= i < |parts| ensures n != PartName(sql, i) {
        assert names[i] == PartName(sql, i);
      }
    }
  }

  /** The directory after `dumpAndCompress(database)` when `mysqldump`
      writes `dump`: every staged file is replaced by its `.gz`. */
  function AfterDump(m: map<string, string>, database: string, dump: string, chunkSize: nat): map<string, string>
  {
    StagedTexts(m, database, dump, chunkSize);
    CompressEach(Staged(m, database, dump, chunkSize), ToCompress(database, dump, chunkSize))
  }

  /** Every file that was compressed has its `.gz`, holding the compressed
      text of that file. */
  lemma DumpArchives(m: map<string, string>, database: string, dump: string, chunkSize: nat)
    ensures var names := ToCompress(database, dump, chunkSize);
      var gz := GzNames(names);
      var texts := UnitTexts(dump, chunkSize);
      var r := AfterDump(m, database, dump, chunkSize);
      && |gz| == |texts|
      && (forall k :: 0 <= k < |gz| ==> gz[k] in r && r[gz[k]] == Gzip(texts[k]))
  {
    var names := ToCompress(database, dump, chunkSize);
    var staged := Staged(m, database, dump, chunkSize);
    StagedTexts(m, database, dump, chunkSize);
    CompressEachValues(staged, names);
    var gz := GzNames(names);
    forall k | 0 <= k < |gz| ensures gz[k] in AfterDump(m, database, dump, chunkSize) {
      assert names[k] in names;
    }
  }

  /** The entries are the old ones without the dump and the files that
      were compressed, plus the archives: neither the `.sql` nor any part
      written for it is left. */
  lemma DumpEntries(m: map<string, string>, database: string, dump: string, chunkSize: nat)
    ensures var names := ToCompress(database, dump, chunkSize);
      var gz := GzNames(names);
      var r := AfterDump(m, database, dump, chunkSize);
      && (forall n :: n in r <==> (n in m && n != SqlName(database) && n !in names) || n in gz)
      && SqlName(database) !in r
      && (forall n :: n in names ==> n !in r)
  {
    var sql := SqlName(database);
    var names := ToCompress(database, dump, chunkSize);
    var gz := GzNames(names);
    var staged := Staged(m, database, dump, chunkSize);
    StagedTexts(m, database, dump, chunkSize);
    StagedRest(m, database, dump, chunkSize);
    CompressEachKeys(staged, names);
    assert sql !in gz by {
      SqlNameLast(database);
      forall k | 0 <= k < |gz| ensures gz[k] != sql {
        GzNameLast(names[k]);
      }
    }
  }

  /** Nothing else in the directory changes. */
  lemma DumpKeepsOthers(m: map<string, string>, database: string, dump: string, chunkSize: nat)
    ensures var names := ToCompress(database, dump, chunkSize);
      var gz := GzNames(names);
      var r := AfterDump(m, database, dump, chunkSize);
      forall n :: n in m && n != SqlName(database) && n !in names && n !in gz ==> n in r && r[n] == m[n]
  {
    var names := ToCompress(database, dump, chunkSize);
    var staged := Staged(m, database, dump, chunkSize);
    StagedTexts(m, database, dump, chunkSize);
    StagedRest(m, database, dump, chunkSize);
    CompressEachKeeps(staged, names);
  }

  /** A dump no larger than the threshold is compressed whole: the only
      archive is `<db>.sql.gz`, holding the compressed dump. */
  lemma UnsplitDump(m: map<string, string>, database: string, dump: string, chunkSize: nat)
    requires ByteLength(dump) <= chunkSize
    ensures GzNames(ToCompress(database, dump, chunkSize)) == [database + ".sql.gz"]
    ensures database + ".sql.gz" in AfterDump(m, database, dump, chunkSize)
    ensures AfterDump(m, database, dump, chunkSize)[database + ".sql.gz"] == Gzip(dump)
  {
    DumpArchives(m, database, dump, chunkSize);
    assert GzName(SqlName(database)) == database + ".sql.gz";
  }

  /** A larger dump is replaced by its parts, at least one of them, whose
      archives are listed in part order. */
  lemma SplitDump(database: string, dump: string, chunkSize: nat)
    requires ByteLength(dump) > chunkSize
    ensures var parts := PartsOfDump(dump, chunkSize);
      && |parts| >= 1
      && ToCompress(database, dump, chunkSize) == PartNames(SqlName(database), |parts|)
      && UnitTexts(dump, chunkSize) == seq(|parts|, k requires 0 <= k < |parts| => JoinWith(parts[k], "\n"))
  {
    ChunksFromNonEmpty(SplitLines(dump), [], chunkSize);
  }

  /** The split decision and the splitter count differently: the file size
      includes every carriage return and the splitter does not. A dump over
      the threshold whose counted lines stay under it becomes one single
      `.part000`. */
  lemma SplitIntoSinglePart(database: string, dump: string, chunkSize: nat)
    requires ByteLength(dump) > chunkSize
    requires Size(SplitLines(dump)) < chunkSize
    ensures ToCompress(database, dump, chunkSize) == [PartName(SqlName(database), 0)]
  {
    OnePartWhenSmall(SplitLines(dump), chunkSize);
  }

  /** Such a dump exists: three empty CRLF-terminated lines are 6 bytes on
      disk but count 4, one per line of the four-element split. */
  lemma SinglePartExample()
    ensures ByteLength("\r\n\r\n\r\n") > 5
    ensures Size(SplitLines("\r\n\r\n\r\n")) < 5
  {
    assert |"\r\n\r\n\r\n"| == 6;
    ExampleLines();
    ExampleSize();
  }

  lemma ExampleLines()
    ensures SplitLines("\r\n\r\n\r\n") == ["", "", "", ""]
  {
    ExampleNoLines();
    SplitLinesCrLf("");
    assert "\r\n" + "" == "\r\n";
    assert SplitLines("\r\n") == ["", ""];
    SplitLinesCrLf("\r\n");
    assert "\r\n" + "\r\n" == "\r\n\r\n";
    assert SplitLines("\r\n\r\n") == ["", "", ""];
    SplitLinesCrLf("\r\n\r\n");
    assert "\r\n" + "\r\n\r\n" == "\r\n\r\n\r\n";
  }

  lemma ExampleNoLines()
    ensures SplitLines("") == [""]
  {
  }

  lemma ExampleSize()
    ensures Size(["", "", "", ""]) == 4
  {
    assert LineBytes("") == 1;
    assert Size([""]) == 1 by {
      assert [""][..0] == [];
    }
    assert Size(["", ""]) == 2 by {
      assert ["", ""][..1] == [""];
    }
    assert Size(["", "", ""]) == 3 by {
      assert ["", "", ""][..2] == ["", ""];
    }
    assert ["", "", "", ""][..3] == ["", "", ""];
  }

  // ---------------------------------------------------------------------
  // The whole run.

  /** The index of the first selected database without a dump, where the
      thrown `execSync` error ends the run. */
  function FirstFailure(dbs: seq<string>, dumps: map<string, string>): (i: nat)
    ensures i <= |dbs|
    ensures forall k :: 0 <= k < i ==> dbs[k] in dumps
    ensures i < |dbs| ==> dbs[i] !in dumps
  {
    if dbs == [] || dbs[0] !in dumps then 0
    else
      var i := FirstFailure(dbs[1..], dumps);
      assert forall k :: 1 <= k < i + 1 ==> dbs[k] == dbs[1..][k - 1];
      1 + i
  }

  /** Every database of the list has a dump. */
  predicate AllDumped(dbs: seq<string>, dumps: map<string, string>) {
    forall k :: 0 <= k < |dbs| ==> dbs[k] in dumps
  }

  lemma AllDumpedTail(dbs: seq<string>, dumps: map<string, string>)
    requires dbs != [] && AllDumped(dbs, dumps)
    ensures AllDumped(dbs[1..], dumps)
  {
    forall k | 0 <= k < |dbs[1..]| ensures dbs[1..][k] in dumps {
      assert dbs[1..][k] == dbs[k + 1];
    }
  }

  /** `gzFiles.push(...gzFile)` over the databases: the archives in order. */
  function AllGzNames(dbs: seq<string>, dumps: map<string, string>, chunkSize: nat): seq<string>
    requires AllDumped(dbs, dumps)
  {
    if dbs == [] then []
    else GzNames(ToCompress(dbs[0], dumps[dbs[0]], chunkSize)) + AllGzNames(dbs[1..], dumps, chunkSize)
  }

  /** The directory after dumping the databases one after another. */
  function AfterDumps(m: map<string, string>, dbs: seq<string>, dumps: map<string, string>, chunkSize: nat): map<string, string>
    requires AllDumped(dbs, dumps)
    decreases |dbs|
  {
    if dbs == [] then m
    else AfterDumps(AfterDump(m, dbs[0], dumps[dbs[0]], chunkSize), dbs[1..], dumps, chunkSize)
  }

  lemma SliceInDumps(dbs: seq<string>, i: nat, j: nat, dumps: map<string, string>)
    requires i <= j <= |dbs|
    requires forall k :: 0 <= k < j ==> dbs[k] in dumps
    ensures AllDumped(dbs[i..j], dumps)
  {
    forall k | 0 <= k < |dbs[i..j]| ensures dbs[i..j][k] in dumps {
      assert dbs[i..j][k] == dbs[i + k];
    }
  }

  /** One database of the export loop. */
  lemma ExportStep(m: map<string, string>, dbs: seq<string>, dumps: map<string, string>, chunkSize: nat)
    requires dbs != []
    requires AllDumped(dbs, dumps)
    ensures AllDumped(dbs[1..], dumps)
    ensures AfterDumps(m, dbs, dumps, chunkSize)
         == AfterDumps(AfterDump(m, dbs[0], dumps[dbs[0]], chunkSize), dbs[1..], dumps, chunkSize)
    ensures AllGzNames(dbs, dumps, chunkSize)
         == GzNames(ToCompress(dbs[0], dumps[dbs[0]], chunkSize)) + AllGzNames(dbs[1..], dumps, chunkSize)
  {
    AllDumpedTail(dbs, dumps);
  }

  /** The export loop's invariant carried over one database. */
  lemma ExportStepKeeps(m: map<string, string>, gz: seq<string>, dbs: seq<string>, dumps: map<string, string>,
                        chunkSize: nat, allGz: seq<string>, target: map<string, string>)
    requires dbs != []
    requires AllDumped(dbs, dumps)
    requires gz + AllGzNames(dbs, dumps, chunkSize) == allGz
    requires AfterDumps(m, dbs, dumps, chunkSize) == target
    ensures AllDumped(dbs[1..], dumps)
    ensures (gz + GzNames(ToCompress(dbs[0], dumps[dbs[0]], chunkSize))) + AllGzNames(dbs[1..], dumps, chunkSize) == allGz
    ensures AfterDumps(AfterDump(m, dbs[0], dumps[dbs[0]], chunkSize), dbs[1..], dumps, chunkSize) == target
  {
    ExportStep(m, dbs, dumps, chunkSize);
  }

  datatype ExportOutcome =
    | NotASendServer
    | NoDatabases
    | DumpFailed(database: string)
    | Exported(gzFiles: seq<string>)

  /** How the dump loop ends: at the first database without a dump, or
      with every archive in order. */
  function DumpOutcome(selected: seq<string>, dumps: map<string, string>, chunkSize: nat): ExportOutcome
  {
    var i := FirstFailure(selected, dumps);
    if i < |selected| then DumpFailed(selected[i]) else Exported(AllGzNames(selected, dumps, chunkSize))
  }

  /** The directory after the dump loop: changed by every database dumped
      before the first failure, and holding what the failed `mysqldump` left
      in `<db>.sql`, which the shell's `>` had created or emptied before it
      ran (`leftover`, empty when it wrote nothing). */
  function AfterRun(m: map<string, string>, selected: seq<string>, dumps: map<string, string>,
                    leftover: string, chunkSize: nat): map<string, string>
  {
    var i := FirstFailure(selected, dumps);
    SliceInDumps(selected, 0, i, dumps);
    assert selected[0..i] == selected[..i];
    var after := AfterDumps(m, selected[..i], dumps, chunkSize);
    if i < |selected| then after[SqlName(selected[i]) := leftover] else after
  }

  /** What `exportDatabases` ends with. */
  function ExportResult(rows: seq<string>, localAddress: string, schemas: seq<string>, prefix: Option<string>,
                        dumps: map<string, string>, chunkSize: nat): ExportOutcome
  {
    var selected := SelectDatabases(schemas, prefix);
    if !SendServerGate(rows, localAddress) then NotASendServer
    else if selected == [] then NoDatabases
    else DumpOutcome(selected, dumps, chunkSize)
  }

  /** The backup directory after `exportDatabases`: untouched when the gate
      or the selection stops the run. */
  function DirectoryAfterExport(m: map<string, string>, rows: seq<string>, localAddress: string, schemas: seq<string>,
                                prefix: Option<string>, dumps: map<string, string>, leftover: string,
                                chunkSize: nat): map<string, string>
  {
    var selected := SelectDatabases(schemas, prefix);
    if !SendServerGate(rows, localAddress) || selected == [] then m
    else AfterRun(m, selected, dumps, leftover, chunkSize)
  }

  /** A failed run names a selected database that has no dump, and every
      database selected before it was dumped. */
  lemma FailureNamesMissingDump(rows: seq<string>, localAddress: string, schemas: seq<string>,
                                prefix: Option<string>, dumps: map<string, string>, chunkSize: nat)
    requires ExportResult(rows, localAddress, schemas, prefix, dumps, chunkSize).DumpFailed?
    ensures var d := ExportResult(rows, localAddress, schemas, prefix, dumps, chunkSize).database;
      var selected := SelectDatabases(schemas, prefix);
      && d in selected && d !in dumps
      && exists i :: 0 <= i < |selected| && selected[i] == d && forall k :: 0 <= k < i ==> selected[k] in dumps
  {
    var selected := SelectDatabases(schemas, prefix);
    var i := FirstFailure(selected, dumps);
    assert selected[i] == ExportResult(rows, localAddress, schemas, prefix, dumps, chunkSize).database;
  }

  /** A failed run leaves the failed database's `<db>.sql` behind, with
      whatever `mysqldump` wrote into it before it failed. */
  lemma FailedDumpLeftBehind(m: map<string, string>, rows: seq<string>, localAddress: string, schemas: seq<string>,
                             prefix: Option<string>, dumps: map<string, string>, leftover: string, chunkSize: nat)
    requires ExportResult(rows, localAddress, schemas, prefix, dumps, chunkSize).DumpFailed?
    ensures var d := ExportResult(rows, localAddress, schemas, prefix, dumps, chunkSize).database;
      var after := DirectoryAfterExport(m, rows, localAddress, schemas, prefix, dumps, leftover, chunkSize);
      SqlName(d) in after && after[SqlName(d)] == leftover
  {
  }

  /** Every archive a successful run returns is in the directory it leaves. */
  lemma ReturnedArchivesExist(m: map<string, string>, rows: seq<string>, localAddress: string, schemas: seq<string>,
                              prefix: Option<string>, dumps: map<string, string>, leftover: string, chunkSize: nat)
    requires ExportResult(rows, localAddress, schemas, prefix, dumps, chunkSize).Exported?
    ensures forall n :: n in ExportResult(rows, localAddress, schemas, prefix, dumps, chunkSize).gzFiles
                   ==> n in DirectoryAfterExport(m, rows, localAddress, schemas, prefix, dumps, leftover, chunkSize)
  {
    var selected := SelectDatabases(schemas, prefix);
    assert selected[..FirstFailure(selected, dumps)] == selected;
    ExportedArchivesExist(m, selected, dumps, chunkSize);
  }

  /** Later dumps never delete an archive: they remove only `.sql` and part
      names, which end in `l` or a digit. */
  lemma AfterDumpKeepsArchives(m: map<string, string>, database: string, dump: string, chunkSize: nat, n: string)
    requires n in m && EndsWith(n, ".gz")
    ensures n in AfterDump(m, database, dump, chunkSize)
  {
    DumpEntries(m, database, dump, chunkSize);
    assert n[|n| - 1] == 'z' by {
      assert n[|n| - 3..][2] == 'z';
    }
    SqlNameLast(database);
  }

  /** Every archive the run lists is present in the directory afterwards. */
  lemma {:induction false} ExportedArchivesExist(m: map<string, string>, dbs: seq<string>, dumps: map<string, string>, chunkSize: nat)
    requires AllDumped(dbs, dumps)
    ensures forall n :: n in AllGzNames(dbs, dumps, chunkSize) ==> n in AfterDumps(m, dbs, dumps, chunkSize)
    decreases |dbs|
  {
    if dbs != [] {
      var m1 := AfterDump(m, dbs[0], dumps[dbs[0]], chunkSize);
      var first := GzNames(ToCompress(dbs[0], dumps[dbs[0]], chunkSize));
      AllDumpedTail(dbs, dumps);
      ExportedArchivesExist(m1, dbs[1..], dumps, chunkSize);
      DumpArchives(m, dbs[0], dumps[dbs[0]], chunkSize);
      forall n | n in first ensures n in AfterDumps(m1, dbs[1..], dumps, chunkSize) {
        var k :| 0 <= k < |first| && first[k] == n;
        assert EndsWith(n, ".gz") by {
          assert n == ToCompress(dbs[0], dumps[dbs[0]], chunkSize)[k] + ".gz";
        }
        ArchivesSurvive(m1, dbs[1..], dumps, chunkSize, n);
      }
    }
  }

  lemma {:induction false} ArchivesSurvive(m: map<string, string>, dbs: seq<string>, dumps: map<string, string>, chunkSize: nat, n: string)
    requires AllDumped(dbs, dumps)
    requires n in m && EndsWith(n, ".gz")
    ensures n in AfterDumps(m, dbs, dumps, chunkSize)
    decreases |dbs|
  {
    if dbs != [] {
      AfterDumpKeepsArchives(m, dbs[0], dumps[dbs[0]], chunkSize, n);
      AllDumpedTail(dbs, dumps);
      ArchivesSurvive(AfterDump(m, dbs[0], dumps[dbs[0]], chunkSize), dbs[1..], dumps, chunkSize, n);
    }
  }

  /** Every database contributes at least one archive. */
  lemma {:induction false} EveryDatabaseArchived(dbs: seq<string>, dumps: map<string, string>, chunkSize: nat)
    requires AllDumped(dbs, dumps)
    ensures |AllGzNames(dbs, dumps, chunkSize)| >= |dbs|
    decreases |dbs|
  {
    if dbs != [] {
      if IsSplit(dumps[dbs[0]], chunkSize) {
        SplitDump(dbs[0], dumps[dbs[0]], chunkSize);
      }
      AllDumpedTail(dbs, dumps);
      EveryDatabaseArchived(dbs[1..], dumps, chunkSize);
    }
  }

  // ---------------------------------------------------------------------
  // The exporter and its backup directory.

  class DatabaseExport {
    /** The backup directory: entry name to file content. */
    var files: map<string, string>
    const chunkSize: nat

    constructor (directory: map<string, string>, chunkSize: nat)
      ensures files == directory && this.chunkSize == chunkSize
    {
      files := directory;
      this.chunkSize := chunkSize;
    }

    /** `getLocalIPAddress`: the first external IPv4 address, interface by
        interface, or the loopback address. */
    method GetLocalIPAddress(interfaces: seq<seq<NetDetails>>) returns (address: string)
      ensures address == LocalAddress(interfaces)
    {
      var i := 0;
      while i < |interfaces|
        invariant 0 <= i <= |interfaces|
        invariant FirstExternal(Flatten(interfaces[i..])) == FirstExternal(Flatten(interfaces))
      {
        FirstExternalOfInterface(interfaces, i);
        var details := interfaces[i];
        var j := 0;
        while j < |details|
          invariant 0 <= j <= |details|
          invariant FirstExternal(details[j..]) == FirstExternal(details)
        {
          FirstExternalFrom(details, j);
          if IsExternalIPv4(details[j]) {
            return details[j].address;
          }
          j := j + 1;
        }
        assert details[j..] == [];
        i := i + 1;
      }
      assert interfaces[i..] == [];
      return "127.0.0.1";
    }

    /** `splitSQLFileByLine`: the parts are written as the counter reaches
        the threshold, and the remainder at the end; their names are
        returned in order. */
    method SplitSqlFileByLine(sqlFilePath: string) returns (splitFiles: seq<string>)
      requires sqlFilePath in files
      modifies this
      ensures splitFiles == PartNames(sqlFilePath, |PartsOfDump(old(files)[sqlFilePath], chunkSize)|)
      ensures files == WriteParts(old(files), sqlFilePath, PartsOfDump(old(files)[sqlFilePath], chunkSize), 0)
    {
      var content := files[sqlFilePath];
      var lines := SplitLines(content);
      splitFiles := WriteChunks(sqlFilePath, lines);
    }

    /** The loop of `splitSQLFileByLine` over the lines of the dump. */
    method WriteChunks(sqlFilePath: string, lines: seq<string>) returns (splitFiles: seq<string>)
      modifies this
      ensures splitFiles == PartNames(sqlFilePath, |Chunks(lines, chunkSize)|)
      ensures files == WriteParts(old(files), sqlFilePath, Chunks(lines, chunkSize), 0)
    {
      ghost var all := Chunks(lines, chunkSize);
      ghost var target := WriteParts(files, sqlFilePath, all, 0);
      var directory := files;
      splitFiles := [];
      var temp: seq<string> := [];
      var size: nat := 0;
      var index: nat := 0;
      var i := 0;
      while i < |lines|
        invariant 0 <= i <= |lines|
        invariant size == Size(temp)
        invariant SplitInvariant(directory, sqlFilePath, lines, i, temp, index, splitFiles, chunkSize, |all|, target)
      {
        var line := lines[i];
        SizePush(temp, line);
        size := size + LineBytes(line);
        if size >= chunkSize {
          SplitFlushKeeps(directory, sqlFilePath, lines, i, temp, index, splitFiles, chunkSize, |all|, target);
          var partFile := PartName(sqlFilePath, index);
          directory := directory[partFile := JoinWith(temp + [line], "\n")];
          splitFiles := splitFiles + [partFile];
          temp := [];
          size := 0;
          index := index + 1;
        } else {
          SplitKeepKeeps(directory, sqlFilePath, lines, i, temp, index, splitFiles, chunkSize, |all|, target);
          temp := temp + [line];
        }
        i := i + 1;
      }
      SplitEnd(directory, sqlFilePath, temp, index, chunkSize);
      assert lines[i..] == [];
      if |temp| > 0 {
        var partFile := PartName(sqlFilePath, index);
        directory := directory[partFile := JoinWith(temp, "\n")];
        PartNamesPush(sqlFilePath, index);
        splitFiles := splitFiles + [partFile];
        index := index + 1;
      }
      files := directory;
    }

    /** `dumpAndCompress(database)` with `mysqldump` writing `dump`: returns
        the archives it made, in order. */
    method DumpAndCompress(database: string, dump: string) returns (gzFiles: seq<string>)
      modifies this
      ensures gzFiles == GzNames(ToCompress(database, dump, chunkSize))
      ensures files == AfterDump(old(files), database, dump, chunkSize)
    {
      ghost var staged := Staged(files, database, dump, chunkSize);
      ghost var names := ToCompress(database, dump, chunkSize);
      StagedTexts(files, database, dump, chunkSize);
      var sqlFilePath := SqlName(database);
      files := files[sqlFilePath := dump];
      var sqlFilesToCompress := [sqlFilePath];
      if ByteLength(dump) > chunkSize {
        sqlFilesToCompress := SplitSqlFileByLine(sqlFilePath);
        files := files - {sqlFilePath};
      }
      assert files == staged && sqlFilesToCompress == names;
      gzFiles := CompressFiles(sqlFilesToCompress);
    }

    /** The loop of `dumpAndCompress` that gzips each file to `<file>.gz`
        and deletes the file once its archive is finished. */
    method CompressFiles(sqlFilesToCompress: seq<string>) returns (gzFiles: seq<string>)
      requires Distinct(sqlFilesToCompress)
      requires forall n :: n in sqlFilesToCompress ==> n in files
      modifies this
      ensures gzFiles == GzNames(sqlFilesToCompress)
      ensures files == CompressEach(old(files), sqlFilesToCompress)
    {
      ghost var target := CompressEach(files, sqlFilesToCompress);
      gzFiles := [];
      var i := 0;
      while i < |sqlFilesToCompress|
        invariant 0 <= i <= |sqlFilesToCompress|
        invariant Distinct(sqlFilesToCompress[i..])
        invariant forall n :: n in sqlFilesToCompress[i..] ==> n in files
        invariant gzFiles == GzNames(sqlFilesToCompress[..i])
        invariant CompressEach(files, sqlFilesToCompress[i..]) == target
      {
        var file := sqlFilesToCompress[i];
        ghost var rest := sqlFilesToCompress[i..];
        assert rest[0] == file && rest[1..] == sqlFilesToCompress[i + 1..];
        CompressEachStep(files, rest);
        GzNamesPush(sqlFilesToCompress, i);
        var gzFilePath := GzName(file);
        files := files[gzFilePath := Gzip(files[file])];
        files := files - {file};
        gzFiles := gzFiles + [gzFilePath];
        i := i + 1;
      }
      assert sqlFilesToCompress[..i] == sqlFilesToCompress && sqlFilesToCompress[i..] == [];
    }

    /** `exportDatabases`, from the `send_servers` rows, the host's
        interfaces, the schema list and the optional name prefix; `dumps`
        holds what `mysqldump` writes for each database it succeeds on, and
        `leftover` what a failing one leaves in its `.sql` file. */
    method ExportDatabases(sendServers: seq<string>, interfaces: seq<seq<NetDetails>>, schemas: seq<string>,
                           prefix: Option<string>, dumps: map<string, string>, leftover: string)
      returns (outcome: ExportOutcome)
      modifies this
      ensures outcome == ExportResult(sendServers, LocalAddress(interfaces), schemas, prefix, dumps, chunkSize)
      ensures files == DirectoryAfterExport(old(files), sendServers, LocalAddress(interfaces), schemas, prefix, dumps, leftover, chunkSize)
    {
      var localIPAddress := GetLocalIPAddress(interfaces);
      if |sendServers| != 1 || localIPAddress !in SplitOn(sendServers[0], ',') {
        return NotASendServer;
      }
      var databases := SelectDatabases(schemas, prefix);
      if |databases| == 0 {
        return NoDatabases;
      }
      outcome := DumpSelected(databases, dumps, leftover);
    }

    /** The loop of `exportDatabases` over the selected databases. */
    method DumpSelected(databases: seq<string>, dumps: map<string, string>, leftover: string) returns (outcome: ExportOutcome)
      modifies this
      ensures outcome == DumpOutcome(databases, dumps, chunkSize)
      ensures files == AfterRun(old(files), databases, dumps, leftover, chunkSize)
    {
      ghost var stop := FirstFailure(databases, dumps);
      ghost var rest := databases[..stop];
      SliceInDumps(databases, 0, stop, dumps);
      assert databases[0..stop] == rest;
      ghost var target := AfterDumps(files, rest, dumps, chunkSize);
      ghost var allGz := AllGzNames(rest, dumps, chunkSize);
      var gzFiles := [];
      var i := 0;
      while i < |databases|
        invariant 0 <= i <= stop
        invariant rest == databases[i..stop]
        invariant AllDumped(rest, dumps)
        invariant gzFiles + AllGzNames(rest, dumps, chunkSize) == allGz
        invariant AfterDumps(files, rest, dumps, chunkSize) == target
      {
        var database := databases[i];
        if database !in dumps {
          assert i == stop && rest == [];
          files := files[SqlName(database) := leftover];
          return DumpFailed(database);
        }
        assert i < stop;
        assert rest[0] == database && rest[1..] == databases[i + 1..stop];
        ExportStepKeeps(files, gzFiles, rest, dumps, chunkSize, allGz, target);
        var gzFile := DumpAndCompress(database, dumps[database]);
        gzFiles := gzFiles + gzFile;
        rest := rest[1..];
        i := i + 1;
      }
      assert rest == [] && databases[..stop] == databases;
      return Exported(gzFiles);
    }
  }
}
