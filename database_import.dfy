/** The import side of the backup: stray `.sql` files are removed from the
    backup directory; the `.gz` archives it lists are divided into single
    archives and groups of parts (`<base>.partNNN.gz`); every single is
    gunzipped next to itself, every group is gunzipped part by part and
    concatenated into `<base>.merged.sql`; a restore script with one `mysql`
    command per single and per group is written beside the program; and at
    the end every file the run created is deleted again.

    The backup directory is a map from entry names to file contents, and the
    order `readdirSync` lists it in is a parameter. Temporary files are
    recorded by entry name; the full path `path.join` builds from the backup
    directory appears only in the restore commands. */
module DatabaseImport {
  import opened Wrappers
  import opened Strings
  import opened Unicode
  import opened Decimal
  import opened Codec
  import opened Chunking

  // ---------------------------------------------------------------------
  // Names.

  /** `filePath.replace(/\.gz$/, "")`: one trailing `.gz` removed, if present. */
  function StripGz(path: string): (stem: string)
    ensures EndsWith(path, ".gz") ==> stem + ".gz" == path
    ensures !EndsWith(path, ".gz") ==> stem == path
  {
    if EndsWith(path, ".gz") then
      assert path == path[..|path| - 3] + path[|path| - 3..];
      path[..|path| - 3]
    else path
  }

  /** `path.join(BACKUP_DIRECTORY, `${base}.merged.sql`)`, as a directory entry. */
  function MergedName(base: string): string {
    base + ".merged.sql"
  }

  /** The characters JavaScript's `.` does not match. */
  predicate IsLineTerminator(c: char) {
    c == '\n' || c == '\r' || c == '\U{2028}' || c == '\U{2029}'
  }

  /** The length of the run of ASCII digits that ends `s`. */
  function TrailingDigits(s: string): (n: nat)
    ensures n <= |s|
    ensures forall i :: |s| - n <= i < |s| ==> IsDigit(s[i])
    ensures n < |s| ==> !IsDigit(s[|s| - n - 1])
    decreases |s|
  {
    if s == [] || !IsDigit(s[|s| - 1]) then 0
    else 1 + TrailingDigits(s[..|s| - 1])
  }

  /** Where the last line of `s` starts: just after its last line terminator,
      or 0 when it has none. */
  function LastLineStart(s: string): (start: nat)
    ensures start <= |s|
    ensures forall i :: start <= i < |s| ==> !IsLineTerminator(s[i])
    ensures start > 0 ==> IsLineTerminator(s[start - 1])
    decreases |s|
  {
    if s == [] then 0
    else if IsLineTerminator(s[|s| - 1]) then |s|
    else LastLineStart(s[..|s| - 1])
  }

  /** A successful match of `/(.*)\.part\d+\.gz$/`: the text before `.part`
      and the digits after it. */
  datatype PartMatch = PartMatch(head: string, digits: string)

  /** `file.match(/(.*)\.part\d+\.gz$/)`. The digits are the whole run before
      `.gz`: a shorter run would leave a digit where `.part` must end. */
  function MatchPart(file: string): (m: Option<PartMatch>)
    ensures m.Some? ==> |m.value.digits| >= 1 && AllDigits(m.value.digits)
    ensures m.Some? ==> file == m.value.head + ".part" + m.value.digits + ".gz"
  {
    if !EndsWith(file, ".gz") then None
    else
      var body := file[..|file| - 3];
      var n := TrailingDigits(body);
      var rest := body[..|body| - n];
      if n == 0 || !EndsWith(rest, ".part") then None
      else
        MatchShape(file, n);
        Some(PartMatch(rest[..|rest| - 5], body[|body| - n..]))
  }

  /** The pieces `MatchPart` cuts out put the name back together. */
  lemma MatchShape(file: string, n: nat)
    requires EndsWith(file, ".gz") && n <= |file| - 3
    requires forall i :: |file| - 3 - n <= i < |file| - 3 ==> IsDigit(file[i])
    requires EndsWith(file[..|file| - 3 - n], ".part")
    ensures var rest := file[..|file| - 3][..|file| - 3 - n];
      var digits := file[..|file| - 3][|file| - 3 - n..];
      && AllDigits(digits)
      && file == rest[..|rest| - 5] + ".part" + digits + ".gz"
  {
    var body := file[..|file| - 3];
    var rest := body[..|body| - n];
    var head := rest[..|rest| - 5];
    var digits := body[|body| - n..];
    assert rest == file[..|file| - 3 - n];
    assert forall i :: 0 <= i < |digits| ==> digits[i] == file[|file| - 3 - n + i];
    assert rest == head + ".part";
    assert body == rest + digits;
    assert file == body + ".gz";
  }

  /** `match[1]`, the group an archive belongs to: the capture `(.*)` starts
      at the earliest position it can, which is just after the last line
      terminator before `.part`. `None` for an archive that is not a part. */
  function PartBase(file: string): Option<string>
  {
    match MatchPart(file)
    case None => None
    case Some(m) => Some(m.head[LastLineStart(m.head)..])
  }

  lemma TrailingDigitsOf(rest: string, digits: string)
    requires rest != [] && !IsDigit(rest[|rest| - 1]) && AllDigits(digits)
    ensures TrailingDigits(rest + digits) == |digits|
  {
    var s := rest + digits;
    assert s[|s| - |digits| - 1] == rest[|rest| - 1];
    assert forall i :: |s| - |digits| <= i < |s| ==> s[i] == digits[i - |rest|];
  }

  /** The pattern accepts every name of the form `<head>.part<digits>.gz`
      and takes it apart the way it was put together. */
  lemma MatchPartComplete(head: string, digits: string)
    requires |digits| >= 1 && AllDigits(digits)
    ensures MatchPart(head + ".part" + digits + ".gz") == Some(PartMatch(head, digits))
  {
    var file := head + ".part" + digits + ".gz";
    var body := head + ".part" + digits;
    var rest := head + ".part";
    assert file[..|file| - 3] == body;
    assert file[|file| - 3..] == ".gz";
    assert rest[|rest| - 1] == 't';
    TrailingDigitsOf(rest, digits);
    assert body[..|body| - |digits|] == rest;
    assert body[|body| - |digits|..] == digits;
    assert rest[|rest| - 5..] == ".part";
    assert rest[..|rest| - 5] == head;
  }

  /** An archive whose name holds no line terminator is grouped under the
      full name before `.part<digits>.gz`. */
  lemma PartBaseOf(head: string, digits: string)
    requires |digits| >= 1 && AllDigits(digits)
    requires forall i :: 0 <= i < |head| ==> !IsLineTerminator(head[i])
    ensures PartBase(head + ".part" + digits + ".gz") == Some(head)
  {
    MatchPartComplete(head, digits);
    assert LastLineStart(head) == 0;
  }

  // ---------------------------------------------------------------------
  // Dividing the archives into singles and part groups.

  /** `singleGzFiles`, and `partGroups` as its keys in insertion order with
      the archives collected under each. */
  datatype Grouping = Grouping(singles: seq<string>, order: seq<string>, groups: map<string, seq<string>>)

  /** One call of the `forEach` callback, for an archive whose group is
      `key(file)` (`None`: a single). */
  function AddArchive(g: Grouping, file: string, key: string -> Option<string>): Grouping
  {
    match key(file)
    case None => g.(singles := g.singles + [file])
    case Some(base) =>
      if base in g.groups then g.(groups := g.groups[base := g.groups[base] + [file]])
      else g.(order := g.order + [base], groups := g.groups[base := [file]])
  }

  /** The grouping after the callback has seen every archive, in order. */
  function GroupBy(files: seq<string>, key: string -> Option<string>): Grouping
    decreases |files|
  {
    if files == [] then Grouping([], [], map[])
    else AddArchive(GroupBy(files[..|files| - 1], key), files[|files| - 1], key)
  }

  /** The grouping `importDatabases` builds: by the base the pattern captures. */
  function GroupArchives(files: seq<string>): Grouping {
    GroupBy(files, PartBase)
  }

  /** The archives whose key is `base` (`None`: the singles), in their order. */
  function Members(files: seq<string>, key: string -> Option<string>, base: Option<string>): (r: seq<string>)
    ensures IsSubsequence(r, files)
    decreases |files|
  {
    if files == [] then []
    else
      var rest := Members(files[1..], key, base);
      if key(files[0]) == base then [files[0]] + rest
      else
        SubsequenceSkip(rest, files);
        rest
  }

  /** The archives of a group are exactly those whose key it is. */
  lemma {:induction false} MembersElements(files: seq<string>, key: string -> Option<string>, base: Option<string>, f: string)
    ensures f in Members(files, key, base) <==> f in files && key(f) == base
    decreases |files|
  {
    if files != [] {
      MembersElements(files[1..], key, base, f);
      assert f in files <==> f == files[0] || f in files[1..];
    }
  }

  /** The index of the first archive of group `base`; `|files|` if there is none. */
  function FirstSeen(files: seq<string>, key: string -> Option<string>, base: string): (i: nat)
    ensures i <= |files|
    ensures i < |files| ==> key(files[i]) == Some(base)
    ensures forall k :: 0 <= k < i ==> key(files[k]) != Some(base)
    decreases |files|
  {
    if files == [] then 0
    else if key(files[0]) == Some(base) then 0
    else
      var i := FirstSeen(files[1..], key, base);
      assert forall k :: 1 <= k < i + 1 ==> files[k] == files[1..][k - 1];
      i + 1
  }

  lemma {:induction false} MembersSnoc(files: seq<string>, x: string, key: string -> Option<string>, base: Option<string>)
    ensures Members(files + [x], key, base) == Members(files, key, base) + (if key(x) == base then [x] else [])
    decreases |files|
  {
    if files == [] {
      assert [] + [x] == [x];
    } else {
      assert (files + [x])[0] == files[0] && (files + [x])[1..] == files[1..] + [x];
      MembersSnoc(files[1..], x, key, base);
    }
  }

  lemma {:induction false} FirstSeenSnoc(files: seq<string>, x: string, key: string -> Option<string>, base: string)
    ensures FirstSeen(files + [x], key, base) ==
      if FirstSeen(files, key, base) < |files| then FirstSeen(files, key, base)
      else if key(x) == Some(base) then |files| else |files| + 1
    decreases |files|
  {
    if files == [] {
      assert [] + [x] == [x] && [x][1..] == [];
    } else {
      assert (files + [x])[0] == files[0] && (files + [x])[1..] == files[1..] + [x];
      FirstSeenSnoc(files[1..], x, key, base);
    }
  }

  /** What the grouping holds: the singles are the archives without a key,
      in order; the groups are keyed by exactly the keys that occur, each
      holding its archives in order; and the keys are iterated in the order
      their first archive was seen. */
  ghost predicate GroupingOf(g: Grouping, files: seq<string>, key: string -> Option<string>) {
    && g.singles == Members(files, key, None)
    && (forall b :: b in g.groups <==> b in g.order)
    && (forall b :: b in g.groups ==> g.groups[b] == Members(files, key, Some(b)))
    && (forall b :: b in g.order <==> FirstSeen(files, key, b) < |files|)
    && (forall i, j :: 0 <= i < j < |g.order| ==> FirstSeen(files, key, g.order[i]) < FirstSeen(files, key, g.order[j]))
  }

  lemma {:induction false} GroupSingles(files: seq<string>, key: string -> Option<string>)
    ensures GroupBy(files, key).singles == Members(files, key, None)
    decreases |files|
  {
    if files != [] {
      var init := files[..|files| - 1];
      var x := files[|files| - 1];
      assert files == init + [x];
      GroupSingles(init, key);
      MembersSnoc(init, x, key, None);
    }
  }

  lemma {:induction false} GroupKey(files: seq<string>, key: string -> Option<string>, b: string)
    ensures b in GroupBy(files, key).groups <==> b in GroupBy(files, key).order
    ensures b in GroupBy(files, key).groups <==> FirstSeen(files, key, b) < |files|
    ensures b in GroupBy(files, key).groups ==> GroupBy(files, key).groups[b] == Members(files, key, Some(b))
    decreases |files|
  {
    if files != [] {
      var init := files[..|files| - 1];
      var x := files[|files| - 1];
      assert files == init + [x];
      GroupKey(init, key, b);
      MembersSnoc(init, x, key, Some(b));
      FirstSeenSnoc(init, x, key, b);
      var g0 := GroupBy(init, key);
      var g := GroupBy(files, key);
      assert g == AddArchive(g0, x, key);
      if key(x) != Some(b) {
        assert b in g.groups ==> g.groups[b] == g0.groups[b];
      } else if b in g0.groups {
        assert g.groups[b] == g0.groups[b] + [x];
      } else {
        NoMembersBeforeFirst(init, key, b);
        assert g.groups[b] == [x];
      }
    }
  }

  /** A base that has not been seen has no archives yet. */
  lemma {:induction false} NoMembersBeforeFirst(files: seq<string>, key: string -> Option<string>, b: string)
    requires FirstSeen(files, key, b) == |files|
    ensures Members(files, key, Some(b)) == []
    decreases |files|
  {
    if files != [] {
      assert FirstSeen(files[1..], key, b) == |files[1..]|;
      NoMembersBeforeFirst(files[1..], key, b);
    }
  }

  lemma {:induction false} GroupOrder(files: seq<string>, key: string -> Option<string>, i: nat, j: nat)
    requires i < j < |GroupBy(files, key).order|
    ensures var o := GroupBy(files, key).order;
      FirstSeen(files, key, o[i]) < FirstSeen(files, key, o[j])
    decreases |files|
  {
    var init := files[..|files| - 1];
    var x := files[|files| - 1];
    assert files == init + [x];
    var o0 := GroupBy(init, key).order;
    var o := GroupBy(files, key).order;
    assert o[i] == o0[i];
    GroupKey(init, key, o0[i]);
    FirstSeenSnoc(init, x, key, o0[i]);
    if j < |o0| {
      GroupOrder(init, key, i, j);
      assert o[j] == o0[j];
      GroupKey(init, key, o0[j]);
      FirstSeenSnoc(init, x, key, o0[j]);
    } else {
      var base := key(x).value;
      assert o[j] == base && base !in GroupBy(init, key).groups;
      GroupKey(init, key, base);
      FirstSeenSnoc(init, x, key, base);
    }
  }

  /** The fold over the archives computes what the grouping should hold. */
  lemma GroupBySpec(files: seq<string>, key: string -> Option<string>)
    ensures GroupingOf(GroupBy(files, key), files, key)
  {
    var g := GroupBy(files, key);
    GroupSingles(files, key);
    forall b
      ensures b in g.groups <==> b in g.order
      ensures b in g.groups <==> FirstSeen(files, key, b) < |files|
      ensures b in g.groups ==> g.groups[b] == Members(files, key, Some(b))
    {
      GroupKey(files, key, b);
    }
    forall i, j | 0 <= i < j < |g.order|
      ensures FirstSeen(files, key, g.order[i]) < FirstSeen(files, key, g.order[j])
    {
      GroupOrder(files, key, i, j);
    }
  }

  /** Every key the grouping iterates over has a group. */
  lemma GroupedKeys(files: seq<string>)
    ensures forall b :: b in GroupArchives(files).order ==> b in GroupArchives(files).groups
  {
    forall b | b in GroupArchives(files).order ensures b in GroupArchives(files).groups {
      GroupKey(files, PartBase, b);
    }
  }

  /** Each archive lands in exactly one place: among the singles when it does
      not match the pattern, otherwise in the group of its base and no other. */
  lemma ArchivePlacedOnce(files: seq<string>, f: string)
    requires f in files
    ensures f in GroupArchives(files).singles <==> PartBase(f).None?
    ensures PartBase(f).Some? ==> PartBase(f).value in GroupArchives(files).groups
    ensures forall b :: b in GroupArchives(files).groups ==> (f in GroupArchives(files).groups[b] <==> PartBase(f) == Some(b))
  {
    var g := GroupArchives(files);
    GroupBySpec(files, PartBase);
    MembersElements(files, PartBase, None, f);
    forall b | b in g.groups ensures f in g.groups[b] <==> PartBase(f) == Some(b) {
      MembersElements(files, PartBase, Some(b), f);
    }
    if PartBase(f).Some? {
      var b := PartBase(f).value;
      var k :| 0 <= k < |files| && files[k] == f;
      assert FirstSeen(files, PartBase, b) <= k;
    }
  }

  /** The grouping is determined by the list: any two groupings that hold
      what the grouping should hold are the same. */
  lemma GroupingUnique(g1: Grouping, g2: Grouping, files: seq<string>, key: string -> Option<string>)
    requires GroupingOf(g1, files, key) && GroupingOf(g2, files, key)
    ensures g1 == g2
  {
    assert g1.groups.Keys == g2.groups.Keys;
    var rank := b => FirstSeen(files, key, b);
    RankedUnique(g1.order, g2.order, rank);
  }

  /** Two lists with the same elements, both strictly increasing in `rank`,
      are the same list. */
  lemma {:induction false} RankedUnique(o1: seq<string>, o2: seq<string>, rank: string -> int)
    requires forall b :: b in o1 <==> b in o2
    requires forall i, j :: 0 <= i < j < |o1| ==> rank(o1[i]) < rank(o1[j])
    requires forall i, j :: 0 <= i < j < |o2| ==> rank(o2[i]) < rank(o2[j])
    ensures o1 == o2
    decreases |o1|
  {
    assert o1 != [] ==> o1[0] in o2;
    assert o2 != [] ==> o2[0] in o1;
    if o1 != [] && o2 != [] {
      RankedHeads(o1, o2, rank);
      RankedTails(o1, o2, rank);
      RankedTail(o1, rank);
      RankedTail(o2, rank);
      RankedUnique(o1[1..], o2[1..], rank);
      assert o1 == [o1[0]] + o1[1..] && o2 == [o2[0]] + o2[1..];
    }
  }

  lemma RankedHeads(o1: seq<string>, o2: seq<string>, rank: string -> int)
    requires o1 != [] && o2 != [] && o1[0] in o2 && o2[0] in o1
    requires forall i, j :: 0 <= i < j < |o1| ==> rank(o1[i]) < rank(o1[j])
    requires forall i, j :: 0 <= i < j < |o2| ==> rank(o2[i]) < rank(o2[j])
    ensures o1[0] == o2[0]
  {
    var i :| 0 <= i < |o2| && o2[i] == o1[0];
    var j :| 0 <= j < |o1| && o1[j] == o2[0];
    RankedFirst(o2, rank, i);
    RankedFirst(o1, rank, j);
  }

  lemma RankedTails(o1: seq<string>, o2: seq<string>, rank: string -> int)
    requires o1 != [] && o2 != [] && o1[0] == o2[0]
    requires forall b :: b in o1 <==> b in o2
    requires forall i, j :: 0 <= i < j < |o1| ==> rank(o1[i]) < rank(o1[j])
    requires forall i, j :: 0 <= i < j < |o2| ==> rank(o2[i]) < rank(o2[j])
    ensures forall b :: b in o1[1..] <==> b in o2[1..]
  {
    forall b ensures b in o1[1..] <==> b in o2[1..] {
      RankedNotHead(o1, rank, b);
      RankedNotHead(o2, rank, b);
    }
  }

  /** The head of a strictly increasing list is not in its tail. */
  lemma RankedNotHead(o: seq<string>, rank: string -> int, b: string)
    requires o != []
    requires forall i, j :: 0 <= i < j < |o| ==> rank(o[i]) < rank(o[j])
    ensures b in o <==> b == o[0] || b in o[1..]
    ensures b in o[1..] ==> b != o[0]
  {
    assert o == [o[0]] + o[1..];
    if b in o[1..] {
      var k :| 0 <= k < |o[1..]| && o[1..][k] == b;
      assert o[k + 1] == b;
      RankedFirst(o, rank, k + 1);
    }
  }

  lemma RankedTail(o: seq<string>, rank: string -> int)
    requires o != []
    requires forall i, j :: 0 <= i < j < |o| ==> rank(o[i]) < rank(o[j])
    ensures forall i, j :: 0 <= i < j < |o[1..]| ==> rank(o[1..][i]) < rank(o[1..][j])
  {
    forall i, j | 0 <= i < j < |o[1..]| ensures rank(o[1..][i]) < rank(o[1..][j]) {
      assert o[1..][i] == o[i + 1] && o[1..][j] == o[j + 1];
    }
  }

  lemma RankedFirst(o: seq<string>, rank: string -> int, k: nat)
    requires forall i, j :: 0 <= i < j < |o| ==> rank(o[i]) < rank(o[j])
    requires k < |o|
    ensures rank(o[0]) <= rank(o[k])
    ensures k > 0 ==> rank(o[0]) < rank(o[k])
  {
  }

  // ---------------------------------------------------------------------
  // Selection of the archives and the restore commands.

  /** `readdirSync(...).filter(prefix).filter((f) => f.endsWith(".gz"))`. */
  function Archives(listing: seq<string>, prefix: Option<string>): (gz: seq<string>)
    ensures forall f :: f in gz <==> f in listing && Selected(f, prefix) && EndsWith(f, ".gz")
    ensures IsSubsequence(gz, listing)
    decreases |listing|
  {
    if listing == [] then []
    else
      var rest := Archives(listing[1..], prefix);
      assert forall f :: f in listing <==> f == listing[0] || f in listing[1..];
      if Selected(listing[0], prefix) && EndsWith(listing[0], ".gz") then [listing[0]] + rest
      else
        SubsequenceSkip(rest, listing);
        rest
  }

  /** What the run takes from outside: the backup directory's path, the
      platform, and the connection settings. */
  datatype Config = Config(backupDirectory: string, isWin: bool, host: string, user: string, password: string)

  /** `path.join(dir, name)` with the platform's separator. */
  function PathJoin(dir: string, name: string, isWin: bool): string {
    dir + (if isWin then "\\" else "/") + name
  }

  const MySqlHead: string := "mysql --default-character-set=utf8mb4" + " --binary-mode -h "

  /** `buildMySQLCommand`: `mysql` with the connection settings, reading the
      file at `filePath` with every backslash turned into a slash. */
  function BuildMySqlCommand(filePath: string, host: string, user: string, password: string): (cmd: string)
    ensures StartsWith(cmd, MySqlHead + host + " -u " + user + " -p\"" + password + "\"")
    ensures EndsWith(cmd, " < \"" + ToForwardSlashes(filePath) + "\"")
    ensures |cmd| == |MySqlHead + host + " -u " + user + " -p\"" + password + "\""| + |" < \"" + ToForwardSlashes(filePath) + "\""|
  {
    var head := MySqlHead + host + " -u " + user + " -p\"" + password + "\"";
    var tail := " < \"" + ToForwardSlashes(filePath) + "\"";
    assert (head + tail)[..|head|] == head;
    assert (head + tail)[|head + tail| - |tail|..] == tail;
    head + tail
  }

  /** Turning backslashes into slashes twice is turning them once: a path
      without backslashes, such as any POSIX path here, is left alone. */
  lemma ForwardSlashesIdempotent(p: string)
    ensures ToForwardSlashes(ToForwardSlashes(p)) == ToForwardSlashes(p)
  {
    var q := ToForwardSlashes(p);
    var r := ToForwardSlashes(q);
    assert forall i :: 0 <= i < |q| ==> r[i] == q[i];
  }

  /** The command for a file in the backup directory. */
  function Command(cfg: Config, entry: string): string {
    BuildMySqlCommand(PathJoin(cfg.backupDirectory, entry, cfg.isWin), cfg.host, cfg.user, cfg.password)
  }

  /** The first lines of the restore script: a bash shebang and fail-fast
      on POSIX systems, nothing on Windows. */
  function Preamble(isWin: bool): seq<string> {
    if isWin then [] else ["#!/bin/bash", "set -e"]
  }

  function LineSeparator(isWin: bool): string {
    if isWin then "\r\n" else "\n"
  }

  /** `import_databases.bat` or `import_databases.sh`, beside the program. */
  function ScriptName(isWin: bool): string {
    "import_databases." + (if isWin then "bat" else "sh")
  }

  // ---------------------------------------------------------------------
  // The run, as functions of the directory.

  /** The state the run carries: the backup directory, `this.tempFiles`,
      and `commandLines`. */
  datatype Run = Run(files: map<string, string>, temps: seq<string>, commands: seq<string>)

  /** Either the run goes on, or the process died on a file it could not
      gunzip, leaving the state it had reached: the gunzip stream's `error`
      event has no listener (only the output stream's has one), so the
      error escapes the `try` and the `finally` does not run. */
  datatype Progress = Running(run: Run) | Halted(file: string, run: Run)

  /** The state in which `decompressGz(file)` dies: the output stream has
      already created its file, or emptied it, and nothing was decoded into
      it, since a gunzip that fails here fails on the header. A missing file
      ends the run the same way. */
  function Died(r: Run, file: string): Progress {
    Halted(file, r.(files := r.files[StripGz(file) := ""]))
  }

  /** What gunzipping `file` gives, or `None` when it fails. */
  function Unzipped(files: map<string, string>, file: string): Option<string> {
    if file in files then Gunzip(files[file]) else None
  }

  /** A file's content, the empty text for a file that is not there. */
  function Content(files: map<string, string>, name: string): string {
    if name in files then files[name] else ""
  }

  /** The loop over the singles: each is gunzipped next to itself, the
      output recorded, and a command for it added. */
  function DecompressSingles(r: Run, singles: seq<string>, cfg: Config): Progress
    decreases |singles|
  {
    if singles == [] then Running(r)
    else match Unzipped(r.files, singles[0])
      case None => Died(r, singles[0])
      case Some(text) =>
        var out := StripGz(singles[0]);
        DecompressSingles(Run(r.files[out := text], r.temps + [out], r.commands + [Command(cfg, out)]), singles[1..], cfg)
  }

  /** The loop over one group's sorted parts: each is gunzipped next to
      itself (recorded once by `decompressGz`), read back, appended to the
      merged file followed by a line feed, and recorded again. */
  function MergeParts(r: Run, merged: string, parts: seq<string>): Progress
    decreases |parts|
  {
    if parts == [] then Running(r)
    else match Unzipped(r.files, parts[0])
      case None => Died(r, parts[0])
      case Some(text) =>
        var out := StripGz(parts[0]);
        var f := r.files[out := text];
        MergeParts(Run(f[merged := Content(f, merged) + f[out] + "\n"], r.temps + [out, out], r.commands), merged, parts[1..])
  }

  /** The loop over the groups, in key order: the merged file is opened
      empty, the sorted parts merged into it, and it is recorded and gets
      a command. */
  function MergeGroups(r: Run, order: seq<string>, groups: map<string, seq<string>>, cfg: Config): Progress
    decreases |order|
  {
    if order == [] then Running(r)
    else
      var merged := MergedName(order[0]);
      var parts := SortStrings(if order[0] in groups then groups[order[0]] else []);
      match MergeParts(r.(files := r.files[merged := ""]), merged, parts)
      case Halted(f, r1) => Halted(f, r1)
      case Running(r1) =>
        MergeGroups(Run(r1.files, r1.temps + [merged], r1.commands + [Command(cfg, merged)]), order[1..], groups, cfg)
  }

  /** Everything between the grouping and the script write. */
  function ImportSteps(files: map<string, string>, temps: seq<string>, gz: seq<string>, cfg: Config): Progress
  {
    var g := GroupArchives(gz);
    match DecompressSingles(Run(files, temps, Preamble(cfg.isWin)), g.singles, cfg)
    case Halted(f, r) => Halted(f, r)
    case Running(r) => MergeGroups(r, g.order, g.groups, cfg)
  }

  /** Where the run dies, the output of the failed archive is left empty. */
  predicate LeftEmpty(p: Progress)
    requires p.Halted?
  {
    StripGz(p.file) in p.run.files && p.run.files[StripGz(p.file)] == ""
  }

  lemma {:induction false} SinglesDieEmpty(r: Run, singles: seq<string>, cfg: Config)
    requires DecompressSingles(r, singles, cfg).Halted?
    ensures LeftEmpty(DecompressSingles(r, singles, cfg))
    decreases |singles|
  {
    if Unzipped(r.files, singles[0]).Some? {
      var text := Unzipped(r.files, singles[0]).value;
      var out := StripGz(singles[0]);
      SinglesDieEmpty(Run(r.files[out := text], r.temps + [out], r.commands + [Command(cfg, out)]), singles[1..], cfg);
    }
  }

  lemma {:induction false} PartsDieEmpty(r: Run, merged: string, parts: seq<string>)
    requires MergeParts(r, merged, parts).Halted?
    ensures LeftEmpty(MergeParts(r, merged, parts))
    decreases |parts|
  {
    if Unzipped(r.files, parts[0]).Some? {
      var text := Unzipped(r.files, parts[0]).value;
      var out := StripGz(parts[0]);
      var f := r.files[out := text];
      PartsDieEmpty(Run(f[merged := Content(f, merged) + f[out] + "\n"], r.temps + [out, out], r.commands), merged, parts[1..]);
    }
  }

  lemma {:induction false} GroupsDieEmpty(r: Run, order: seq<string>, groups: map<string, seq<string>>, cfg: Config)
    requires MergeGroups(r, order, groups, cfg).Halted?
    ensures LeftEmpty(MergeGroups(r, order, groups, cfg))
    decreases |order|
  {
    var merged := MergedName(order[0]);
    var parts := SortStrings(if order[0] in groups then groups[order[0]] else []);
    var p := MergeParts(r.(files := r.files[merged := ""]), merged, parts);
    if p.Halted? {
      PartsDieEmpty(r.(files := r.files[merged := ""]), merged, parts);
    } else {
      var r1 := p.run;
      GroupsDieEmpty(Run(r1.files, r1.temps + [merged], r1.commands + [Command(cfg, merged)]), order[1..], groups, cfg);
    }
  }

  /** A crashed import leaves the output of the archive it died on behind,
      empty; nothing removes it, since the cleanup never runs. */
  lemma CrashLeavesOutput(files: map<string, string>, temps: seq<string>, gz: seq<string>, cfg: Config)
    requires ImportSteps(files, temps, gz, cfg).Halted?
    ensures LeftEmpty(ImportSteps(files, temps, gz, cfg))
  {
    var g := GroupArchives(gz);
    var d := DecompressSingles(Run(files, temps, Preamble(cfg.isWin)), g.singles, cfg);
    if d.Halted? {
      SinglesDieEmpty(Run(files, temps, Preamble(cfg.isWin)), g.singles, cfg);
    } else {
      GroupsDieEmpty(d.run, g.order, g.groups, cfg);
    }
  }

  /** The directory after `destructor`: every recorded file removed. */
  function Cleaned(files: map<string, string>, temps: seq<string>): (r: map<string, string>)
    ensures forall n :: n in r <==> n in files && n !in temps
    ensures forall n :: n in r ==> r[n] == files[n]
  {
    map n | n in files && n !in temps :: files[n]
  }

  /** The directory after `cleanOldSQL`: every `.sql` entry removed. */
  function WithoutSql(files: map<string, string>): (r: map<string, string>)
    ensures forall n :: n in r <==> n in files && !EndsWith(n, ".sql")
    ensures forall n :: n in r ==> r[n] == files[n]
  {
    map n | n in files && !EndsWith(n, ".sql") :: files[n]
  }

  // ---------------------------------------------------------------------
  // What the run writes, and what survives it.

  /** `files1` differs from `files0` only at the names in `touched`. */
  ghost predicate ChangedOnly(files0: map<string, string>, files1: map<string, string>, touched: seq<string>) {
    forall n :: n !in touched ==> (n in files1 <==> n in files0) && (n in files1 ==> files1[n] == files0[n])
  }

  /** The run only ever adds to the recorded files, and touches no file it
      has not recorded (the merged file being recorded when its group ends). */
  ghost predicate Recorded(r0: Run, r1: Run, extra: seq<string>) {
    |r0.temps| <= |r1.temps| && r1.temps[..|r0.temps|] == r0.temps
    && ChangedOnly(r0.files, r1.files, r1.temps + extra)
  }

  lemma {:induction false} DecompressSinglesRecorded(r: Run, singles: seq<string>, cfg: Config)
    requires DecompressSingles(r, singles, cfg).Running?
    ensures Recorded(r, DecompressSingles(r, singles, cfg).run, [])
    decreases |singles|
  {
    if singles != [] {
      var text := Unzipped(r.files, singles[0]).value;
      var out := StripGz(singles[0]);
      var r1 := Run(r.files[out := text], r.temps + [out], r.commands + [Command(cfg, out)]);
      DecompressSinglesRecorded(r1, singles[1..], cfg);
      var r2 := DecompressSingles(r1, singles[1..], cfg).run;
      assert r2.temps[..|r.temps|] == r1.temps[..|r1.temps|][..|r.temps|];
      assert out in r2.temps by {
        assert r2.temps[..|r1.temps|][|r.temps|] == out;
      }
    }
  }

  lemma {:induction false} MergePartsRecorded(r: Run, merged: string, parts: seq<string>)
    requires MergeParts(r, merged, parts).Running?
    ensures Recorded(r, MergeParts(r, merged, parts).run, [merged])
    ensures MergeParts(r, merged, parts).run.commands == r.commands
    decreases |parts|
  {
    if parts != [] {
      var text := Unzipped(r.files, parts[0]).value;
      var out := StripGz(parts[0]);
      var f := r.files[out := text];
      var r1 := Run(f[merged := Content(f, merged) + f[out] + "\n"], r.temps + [out, out], r.commands);
      MergePartsRecorded(r1, merged, parts[1..]);
      var r2 := MergeParts(r1, merged, parts[1..]).run;
      assert r2.temps[..|r.temps|] == r1.temps[..|r1.temps|][..|r.temps|];
      assert out in r2.temps by {
        assert r2.temps[..|r1.temps|][|r.temps|] == out;
      }
    }
  }

  /** One group: the merged file is emptied, the parts merged into it, and
      it is recorded. */
  lemma MergeGroupRecorded(r: Run, merged: string, parts: seq<string>, cfg: Config)
    requires MergeParts(r.(files := r.files[merged := ""]), merged, parts).Running?
    ensures var r1 := MergeParts(r.(files := r.files[merged := ""]), merged, parts).run;
      Recorded(r, Run(r1.files, r1.temps + [merged], r1.commands + [Command(cfg, merged)]), [])
  {
    var r0 := r.(files := r.files[merged := ""]);
    MergePartsRecorded(r0, merged, parts);
    var r1 := MergeParts(r0, merged, parts).run;
    var r2 := Run(r1.files, r1.temps + [merged], r1.commands + [Command(cfg, merged)]);
    assert r2.temps[..|r.temps|] == r1.temps[..|r.temps|];
    assert r2.temps + [] == r1.temps + [merged];
  }

  lemma {:induction false} MergeGroupsRecorded(r: Run, order: seq<string>, groups: map<string, seq<string>>, cfg: Config)
    requires MergeGroups(r, order, groups, cfg).Running?
    ensures Recorded(r, MergeGroups(r, order, groups, cfg).run, [])
    decreases |order|
  {
    if order == [] {
      assert r.temps[..|r.temps|] == r.temps;
      assert r.temps + [] == r.temps;
    } else {
      var merged := MergedName(order[0]);
      var parts := SortStrings(if order[0] in groups then groups[order[0]] else []);
      MergeGroupRecorded(r, merged, parts, cfg);
      var r1 := MergeParts(r.(files := r.files[merged := ""]), merged, parts).run;
      var r2 := Run(r1.files, r1.temps + [merged], r1.commands + [Command(cfg, merged)]);
      MergeGroupsRecorded(r2, order[1..], groups, cfg);
      RecordedTransitive(r, r2, MergeGroups(r2, order[1..], groups, cfg).run);
    }
  }

  lemma RecordedTransitive(r0: Run, r1: Run, r2: Run)
    requires Recorded(r0, r1, []) && Recorded(r1, r2, [])
    ensures Recorded(r0, r2, [])
  {
    assert r2.temps[..|r0.temps|] == r2.temps[..|r1.temps|][..|r0.temps|];
    forall n | n in r1.temps ensures n in r2.temps {
      var k :| 0 <= k < |r1.temps| && r1.temps[k] == n;
      assert r2.temps[..|r1.temps|][k] == n;
    }
    assert r1.temps + [] == r1.temps && r2.temps + [] == r2.temps;
  }

  lemma CleanedRecorded(r0: Run, r1: Run)
    requires Recorded(r0, r1, [])
    ensures Cleaned(r1.files, r1.temps) == Cleaned(r0.files, r1.temps)
  {
    assert r1.temps + [] == r1.temps;
  }

  /** Cleanup completeness: a run that finishes leaves, after `destructor`,
      the directory it found with the recorded names removed. Nothing the
      run wrote survives, and nothing it did not record is changed. */
  lemma ImportLeavesNoTrace(files: map<string, string>, temps: seq<string>, gz: seq<string>, cfg: Config)
    requires ImportSteps(files, temps, gz, cfg).Running?
    ensures var r := ImportSteps(files, temps, gz, cfg).run;
      Cleaned(r.files, r.temps) == Cleaned(files, r.temps)
  {
    var g := GroupArchives(gz);
    var r0 := Run(files, temps, Preamble(cfg.isWin));
    DecompressSinglesRecorded(r0, g.singles, cfg);
    var r1 := DecompressSingles(r0, g.singles, cfg).run;
    MergeGroupsRecorded(r1, g.order, g.groups, cfg);
    var r2 := MergeGroups(r1, g.order, g.groups, cfg).run;
    RecordedTransitive(r0, r1, r2);
    CleanedRecorded(r0, r2);
  }

  /** One command per single, for the file it is gunzipped to, in order. */
  function SingleCommands(cfg: Config, singles: seq<string>): (cs: seq<string>)
    ensures |cs| == |singles|
    ensures forall k :: 0 <= k < |singles| ==> cs[k] == Command(cfg, StripGz(singles[k]))
    decreases |singles|
  {
    if singles == [] then [] else [Command(cfg, StripGz(singles[0]))] + SingleCommands(cfg, singles[1..])
  }

  /** One command per group, for its merged file, in key order. */
  function GroupCommands(cfg: Config, order: seq<string>): (cs: seq<string>)
    ensures |cs| == |order|
    ensures forall k :: 0 <= k < |order| ==> cs[k] == Command(cfg, MergedName(order[k]))
    decreases |order|
  {
    if order == [] then [] else [Command(cfg, MergedName(order[0]))] + GroupCommands(cfg, order[1..])
  }

  /** The commands of a finished run: the preamble, one per single in order,
      then one per group in key order. */
  function Commands(g: Grouping, cfg: Config): seq<string>
  {
    Preamble(cfg.isWin) + SingleCommands(cfg, g.singles) + GroupCommands(cfg, g.order)
  }

  lemma {:induction false} DecompressSinglesCommands(r: Run, singles: seq<string>, cfg: Config)
    requires DecompressSingles(r, singles, cfg).Running?
    ensures DecompressSingles(r, singles, cfg).run.commands == r.commands + SingleCommands(cfg, singles)
    decreases |singles|
  {
    if singles != [] {
      var text := Unzipped(r.files, singles[0]).value;
      var out := StripGz(singles[0]);
      var r1 := Run(r.files[out := text], r.temps + [out], r.commands + [Command(cfg, out)]);
      DecompressSinglesCommands(r1, singles[1..], cfg);
    }
  }

  lemma {:induction false} MergeGroupsCommands(r: Run, order: seq<string>, groups: map<string, seq<string>>, cfg: Config)
    requires MergeGroups(r, order, groups, cfg).Running?
    ensures MergeGroups(r, order, groups, cfg).run.commands == r.commands + GroupCommands(cfg, order)
    decreases |order|
  {
    if order != [] {
      var merged := MergedName(order[0]);
      var parts := SortStrings(if order[0] in groups then groups[order[0]] else []);
      var r0 := r.(files := r.files[merged := ""]);
      MergePartsRecorded(r0, merged, parts);
      var r1 := MergeParts(r0, merged, parts).run;
      var r2 := Run(r1.files, r1.temps + [merged], r1.commands + [Command(cfg, merged)]);
      MergeGroupsCommands(r2, order[1..], groups, cfg);
    }
  }

  /** Script layout: a finished run's commands are the preamble, then the
      singles in order, then the groups in order. */
  lemma ImportCommands(files: map<string, string>, temps: seq<string>, gz: seq<string>, cfg: Config)
    requires ImportSteps(files, temps, gz, cfg).Running?
    ensures ImportSteps(files, temps, gz, cfg).run.commands == Commands(GroupArchives(gz), cfg)
  {
    var g := GroupArchives(gz);
    var r0 := Run(files, temps, Preamble(cfg.isWin));
    DecompressSinglesCommands(r0, g.singles, cfg);
    var r1 := DecompressSingles(r0, g.singles, cfg).run;
    MergeGroupsCommands(r1, g.order, g.groups, cfg);
  }

  /** On POSIX systems the script splits back into its lines: the shebang,
      `set -e`, and one command per single and per group. */
  lemma PosixScriptLines(g: Grouping, cfg: Config)
    requires !cfg.isWin && SettingsOnOneLine(cfg)
    requires forall k :: 0 <= k < |g.singles| ==> '\n' !in g.singles[k]
    requires forall k :: 0 <= k < |g.order| ==> '\n' !in g.order[k]
    ensures SplitOn(JoinWith(Commands(g, cfg), LineSeparator(cfg.isWin)), '\n') == Commands(g, cfg)
    ensures |Commands(g, cfg)| == 2 + |g.singles| + |g.order|
  {
    var cs := Commands(g, cfg);
    forall i | 0 <= i < |cs| ensures '\n' !in cs[i] {
      CommandOnOneLine(g, cfg, i);
    }
    SplitJoinWith(cs, '\n');
  }

  lemma CommandOnOneLine(g: Grouping, cfg: Config, i: nat)
    requires !cfg.isWin && SettingsOnOneLine(cfg)
    requires forall k :: 0 <= k < |g.singles| ==> '\n' !in g.singles[k]
    requires forall k :: 0 <= k < |g.order| ==> '\n' !in g.order[k]
    requires i < |Commands(g, cfg)|
    ensures '\n' !in Commands(g, cfg)[i]
  {
    var pre := Preamble(cfg.isWin);
    var ones := SingleCommands(cfg, g.singles);
    var merges := GroupCommands(cfg, g.order);
    var c := Commands(g, cfg)[i];
    if i == 0 {
      assert c == "#!/bin/bash";
      assert '\n' !in "#!/bin/bash";
    } else if i == 1 {
      assert c == "set -e";
      assert '\n' !in "set -e";
    } else if i < 2 + |g.singles| {
      assert c == ones[i - 2];
      SingleCommandOnOneLine(cfg, g.singles[i - 2]);
    } else {
      assert c == merges[i - 2 - |g.singles|];
      MergeCommandOnOneLine(cfg, g.order[i - 2 - |g.singles|]);
    }
  }

  lemma SingleCommandOnOneLine(cfg: Config, single: string)
    requires SettingsOnOneLine(cfg) && '\n' !in single
    ensures '\n' !in Command(cfg, StripGz(single))
  {
    StripGzNoLineFeed(single);
    CommandWithoutLineFeed(cfg, StripGz(single));
  }

  lemma MergeCommandOnOneLine(cfg: Config, base: string)
    requires SettingsOnOneLine(cfg) && '\n' !in base
    ensures '\n' !in Command(cfg, MergedName(base))
  {
    NotInAppend(base, ".merged.sql", '\n');
    CommandWithoutLineFeed(cfg, MergedName(base));
  }

  /** None of the settings that go into a command holds a line feed. */
  predicate SettingsOnOneLine(cfg: Config) {
    '\n' !in cfg.backupDirectory && '\n' !in cfg.host && '\n' !in cfg.user && '\n' !in cfg.password
  }

  lemma StripGzNoLineFeed(s: string)
    requires '\n' !in s
    ensures '\n' !in StripGz(s)
  {
    var t := StripGz(s);
    assert forall i :: 0 <= i < |t| ==> t[i] == s[i];
  }

  lemma CommandWithoutLineFeed(cfg: Config, entry: string)
    requires SettingsOnOneLine(cfg) && '\n' !in entry
    ensures '\n' !in Command(cfg, entry)
  {
    var q := ToForwardSlashes(PathJoin(cfg.backupDirectory, entry, cfg.isWin));
    PathWithoutLineFeed(cfg, entry);
    HeadWithoutLineFeed(cfg);
    var head := MySqlHead + cfg.host + " -u " + cfg.user + " -p\"" + cfg.password;
    NotInAppend(head, "\"", '\n');
    NotInAppend(" < \"", q, '\n');
    NotInAppend(" < \"" + q, "\"", '\n');
    NotInAppend(head + "\"", " < \"" + q + "\"", '\n');
  }

  lemma PathWithoutLineFeed(cfg: Config, entry: string)
    requires SettingsOnOneLine(cfg) && '\n' !in entry
    ensures '\n' !in ToForwardSlashes(PathJoin(cfg.backupDirectory, entry, cfg.isWin))
  {
    var sep := if cfg.isWin then "\\" else "/";
    var p := PathJoin(cfg.backupDirectory, entry, cfg.isWin);
    NotInAppend(cfg.backupDirectory, sep, '\n');
    NotInAppend(cfg.backupDirectory + sep, entry, '\n');
    var q := ToForwardSlashes(p);
    forall i | 0 <= i < |q| ensures q[i] != '\n' {
      assert p[i] in p;
    }
  }

  lemma HeadWithoutLineFeed(cfg: Config)
    requires SettingsOnOneLine(cfg)
    ensures '\n' !in MySqlHead + cfg.host + " -u " + cfg.user + " -p\"" + cfg.password
  {
    NotInAppend("mysql --default-character-set=utf8mb4", " --binary-mode -h ", '\n');
    NotInAppend(MySqlHead, cfg.host, '\n');
    NotInAppend(MySqlHead + cfg.host, " -u ", '\n');
    NotInAppend(MySqlHead + cfg.host + " -u ", cfg.user, '\n');
    NotInAppend(MySqlHead + cfg.host + " -u " + cfg.user, " -p\"", '\n');
    NotInAppend(MySqlHead + cfg.host + " -u " + cfg.user + " -p\"", cfg.password, '\n');
  }

  lemma NotInAppend(a: string, b: string, c: char)
    requires c !in a && c !in b
    ensures c !in a + b
  {
    assert forall i :: 0 <= i < |a + b| ==> (a + b)[i] == if i < |a| then a[i] else b[i - |a|];
  }

  // ---------------------------------------------------------------------
  // The merged file of a group.

  /** Two names with different last characters are different. */
  lemma LastCharDiffers(a: string, b: string)
    requires |a| > 0 && |b| > 0 && a[|a| - 1] != b[|b| - 1]
    ensures a != b
  {
  }

  /** The shape of a part archive's name that the merge relies on: it ends
      in `.gz`, after a digit. */
  predicate PartArchiveName(p: string) {
    EndsWith(p, ".gz") && |p| > 3 && IsDigit(p[|p| - 4])
  }

  lemma MatchedPartName(part: string)
    requires MatchPart(part).Some?
    ensures PartArchiveName(part)
  {
    var m := MatchPart(part).value;
    var out := m.head + ".part" + m.digits;
    assert part == out + ".gz";
    assert part[|part| - 3..] == ".gz";
    assert part[|part| - 4] == m.digits[|m.digits| - 1];
  }

  /** Where a part is gunzipped to: its name without `.gz`, which ends in a
      digit, so is neither an archive nor a merged file. */
  lemma PartOutputName(part: string)
    requires PartArchiveName(part)
    ensures var out := StripGz(part);
      |out| > 0 && IsDigit(out[|out| - 1]) && part[|part| - 1] == 'z'
  {
    var out := StripGz(part);
    assert out + ".gz" == part;
    assert out[|out| - 1] == part[|part| - 4];
    assert part[|part| - 1] == part[|part| - 3..][2];
  }

  /** Gunzipping one part and appending to the merged file leaves every
      other part archive as it was. */
  lemma OtherPartsUntouched(files: map<string, string>, first: string, merged: string, content: string, p: string)
    requires PartArchiveName(first) && PartArchiveName(p)
    requires |merged| > 0 && merged[|merged| - 1] == 'l'
    requires Unzipped(files, first).Some?
    ensures Unzipped(files[StripGz(first) := Unzipped(files, first).value][merged := content], p) == Unzipped(files, p)
  {
    PartOutputName(first);
    PartOutputName(p);
    LastCharDiffers(StripGz(first), p);
    LastCharDiffers(merged, p);
  }

  /** The files after merging one part that gunzips to `text`. */
  function MergedOne(files: map<string, string>, merged: string, part: string, text: string): map<string, string>
    requires merged in files
  {
    files[StripGz(part) := text][merged := files[merged] + text + "\n"]
  }

  /** One step of the merge: the first part is gunzipped and appended, and
      the remaining parts still gunzip as before. */
  lemma MergePartStep(r: Run, merged: string, parts: seq<string>, texts: seq<string>)
    requires merged in r.files && EndsWith(merged, ".sql")
    requires |texts| == |parts| > 0
    requires forall k :: 0 <= k < |parts| ==> PartArchiveName(parts[k]) && Unzipped(r.files, parts[k]) == Some(texts[k])
    ensures var out := StripGz(parts[0]);
      MergeParts(r, merged, parts)
      == MergeParts(Run(MergedOne(r.files, merged, parts[0], texts[0]), r.temps + [out, out], r.commands), merged, parts[1..])
    ensures forall k :: 0 <= k < |parts| - 1 ==>
      PartArchiveName(parts[1..][k]) && Unzipped(MergedOne(r.files, merged, parts[0], texts[0]), parts[1..][k]) == Some(texts[1..][k])
  {
    var out := StripGz(parts[0]);
    EndsWithLast(merged, ".sql");
    PartOutputName(parts[0]);
    LastCharDiffers(out, merged);
    var f := r.files[out := texts[0]];
    assert Content(f, merged) + f[out] + "\n" == r.files[merged] + texts[0] + "\n";
    forall k | 0 <= k < |parts| - 1
      ensures PartArchiveName(parts[1..][k]) && Unzipped(MergedOne(r.files, merged, parts[0], texts[0]), parts[1..][k]) == Some(texts[1..][k])
    {
      OtherPartsUntouched(r.files, parts[0], merged, r.files[merged] + texts[0] + "\n", parts[k + 1]);
    }
  }

  lemma TerminatedAppend(a: string, texts: seq<string>)
    requires texts != []
    ensures a + Terminated(texts) == (a + texts[0] + "\n") + Terminated(texts[1..])
  {
  }

  /** Merge content: merging parts that all gunzip appends, to what the
      merged file held, each part's text followed by a line feed, in order. */
  lemma {:induction false} MergePartsText(r: Run, merged: string, parts: seq<string>, texts: seq<string>)
    requires merged in r.files && EndsWith(merged, ".sql")
    requires |texts| == |parts|
    requires forall k :: 0 <= k < |parts| ==> PartArchiveName(parts[k]) && Unzipped(r.files, parts[k]) == Some(texts[k])
    ensures MergeParts(r, merged, parts).Running?
    ensures merged in MergeParts(r, merged, parts).run.files
    ensures MergeParts(r, merged, parts).run.files[merged] == r.files[merged] + Terminated(texts)
    decreases |parts|
  {
    if parts == [] {
      assert r.files[merged] + Terminated(texts) == r.files[merged];
    } else {
      MergePartStep(r, merged, parts, texts);
      var out := StripGz(parts[0]);
      var r1 := Run(MergedOne(r.files, merged, parts[0], texts[0]), r.temps + [out, out], r.commands);
      MergePartsText(r1, merged, parts[1..], texts[1..]);
      TerminatedAppend(r.files[merged], texts);
    }
  }

  /** Stray files removed by `cleanOldSQL`: dumps and merged files go, while
      archives and uncompressed parts stay. */
  lemma CleanOldSqlScope(files: map<string, string>, database: string, base: string, k: nat, archive: string)
    requires archive in files && EndsWith(archive, ".gz")
    requires PartName(database + ".sql", k) in files
    ensures database + ".sql" !in WithoutSql(files)
    ensures MergedName(base) !in WithoutSql(files)
    ensures archive in WithoutSql(files)
    ensures PartName(database + ".sql", k) in WithoutSql(files)
  {
    var m := MergedName(base);
    assert m[|m| - 4..] == ".sql";
    assert (database + ".sql")[|database + ".sql"| - 4..] == ".sql";
    EndsWithLast(archive, ".gz");
    EndsWithLast(archive, ".sql");
    var p := PartName(database + ".sql", k);
    PartNameEndsWithDigit(database + ".sql", k);
    EndsWithLast(p, ".sql");
  }

  // ---------------------------------------------------------------------
  // The importer.

  /** The `forEach` that sorts the archives into singles and part groups. */
  method GroupGzFiles(gzFiles: seq<string>) returns (grouping: Grouping)
    ensures grouping == GroupArchives(gzFiles)
  {
    var partGroups: map<string, seq<string>> := map[];
    var order: seq<string> := [];
    var singleGzFiles: seq<string> := [];
    var i := 0;
    while i < |gzFiles|
      invariant 0 <= i <= |gzFiles|
      invariant Grouping(singleGzFiles, order, partGroups) == GroupBy(gzFiles[..i], PartBase)
    {
      var file := gzFiles[i];
      assert gzFiles[..i + 1] == gzFiles[..i] + [file];
      ghost var before := Grouping(singleGzFiles, order, partGroups);
      var match_ := MatchPart(file);
      if match_.Some? {
        var base := match_.value.head[LastLineStart(match_.value.head)..];
        if base !in partGroups {
          partGroups := partGroups[base := []];
          order := order + [base];
        }
        assert [] + [file] == [file];
        partGroups := partGroups[base := partGroups[base] + [file]];
      } else {
        singleGzFiles := singleGzFiles + [file];
      }
      assert Grouping(singleGzFiles, order, partGroups) == AddArchive(before, file, PartBase);
      i := i + 1;
    }
    assert gzFiles[..i] == gzFiles;
    grouping := Grouping(singleGzFiles, order, partGroups);
  }

  datatype ImportOutcome =
    | NoArchives
    | Crashed(file: string)
    | Imported(script: string)

  class DatabaseImport {
    /** The backup directory: entry name to file content. */
    var files: map<string, string>
    /** `this.tempFiles`: the entries to delete at the end. */
    var tempFiles: seq<string>
    /** The directory holding the program, where the restore script goes. */
    var programFiles: map<string, string>
    const config: Config

    constructor (directory: map<string, string>, programDirectory: map<string, string>, config: Config)
      ensures files == directory && programFiles == programDirectory && tempFiles == []
      ensures this.config == config
    {
      files := directory;
      programFiles := programDirectory;
      tempFiles := [];
      this.config := config;
    }

    /** `cleanOldSQL`: each entry the directory lists, in whatever order,
        is deleted when its name ends in `.sql`. */
    method CleanOldSql()
      modifies this`files
      ensures files == WithoutSql(old(files))
    {
      var entries := files.Keys;
      ghost var start := files;
      while entries != {}
        invariant entries <= start.Keys
        invariant files == map n | n in start && (n in entries || !EndsWith(n, ".sql")) :: start[n]
        decreases entries
      {
        var file :| file in entries;
        if EndsWith(file, ".sql") {
          files := files - {file};
        }
        entries := entries - {file};
      }
    }

    /** `decompressGz(file)`: writes what `file` gunzips to under its name
        without `.gz`, leaves `file` in place, and records the output. */
    method DecompressGz(file: string) returns (sqlPath: Option<string>)
      modifies this`files, this`tempFiles
      ensures sqlPath.None? <==> Unzipped(old(files), file).None?
      ensures sqlPath.None? ==> files == old(files)[StripGz(file) := ""] && tempFiles == old(tempFiles)
      ensures sqlPath.Some? ==> && sqlPath.value == StripGz(file)
                                && files == old(files)[StripGz(file) := Unzipped(old(files), file).value]
                                && tempFiles == old(tempFiles) + [StripGz(file)]
      ensures sqlPath.Some? && EndsWith(file, ".gz") ==> file in files && files[file] == old(files)[file]
    {
      var out := StripGz(file);
      var text := if file in files then Gunzip(files[file]) else None;
      files := files[out := ""];
      if text.None? {
        return None;
      }
      files := files[out := text.value];
      tempFiles := tempFiles + [out];
      if EndsWith(file, ".gz") {
        assert |out| < |file|;
      }
      return Some(out);
    }

    /** `destructor`: every recorded entry that still exists is deleted;
        a name recorded twice is simply found gone the second time. */
    method Destructor()
      modifies this`files
      ensures files == Cleaned(old(files), tempFiles)
    {
      var i := 0;
      while i < |tempFiles|
        invariant 0 <= i <= |tempFiles|
        invariant files == Cleaned(old(files), tempFiles[..i])
      {
        var file := tempFiles[i];
        assert tempFiles[..i + 1] == tempFiles[..i] + [file];
        if file in files {
          files := files - {file};
        }
        i := i + 1;
      }
      assert tempFiles[..i] == tempFiles;
    }

    /** The loop over the singles: each is gunzipped next to itself and gets
        a command; a gunzip failure ends the run. */
    method DecompressSingleFiles(singles: seq<string>, commands: seq<string>) returns (failed: Option<string>, commandLines: seq<string>)
      modifies this`files, this`tempFiles
      ensures match DecompressSingles(Run(old(files), old(tempFiles), commands), singles, config)
        case Halted(f, r) => failed == Some(f) && files == r.files && tempFiles == r.temps
        case Running(r) => failed.None? && files == r.files && tempFiles == r.temps && commandLines == r.commands
    {
      ghost var target := DecompressSingles(Run(files, tempFiles, commands), singles, config);
      commandLines := commands;
      var i := 0;
      while i < |singles|
        invariant 0 <= i <= |singles|
        invariant DecompressSingles(Run(files, tempFiles, commandLines), singles[i..], config) == target
      {
        assert singles[i..][1..] == singles[i + 1..];
        var sqlPath := DecompressGz(singles[i]);
        if sqlPath.None? {
          return Some(singles[i]), commandLines;
        }
        commandLines := commandLines + [Command(config, sqlPath.value)];
        i := i + 1;
      }
      assert singles[i..] == [];
      failed := None;
    }

    /** The loop over one group's sorted parts: each is gunzipped, read back
        and appended to the merged file with a line feed, and recorded again. */
    method MergePartFiles(mergedPath: string, parts: seq<string>, ghost commands: seq<string>) returns (failed: Option<string>)
      requires mergedPath in files
      modifies this`files, this`tempFiles
      ensures match MergeParts(Run(old(files), old(tempFiles), commands), mergedPath, parts)
        case Halted(f, r) => failed == Some(f) && files == r.files && tempFiles == r.temps
        case Running(r) => failed.None? && files == r.files && tempFiles == r.temps
    {
      ghost var target := MergeParts(Run(files, tempFiles, commands), mergedPath, parts);
      var k := 0;
      while k < |parts|
        invariant 0 <= k <= |parts|
        invariant mergedPath in files
        invariant MergeParts(Run(files, tempFiles, commands), mergedPath, parts[k..]) == target
      {
        assert parts[k..][1..] == parts[k + 1..];
        ghost var before := Run(files, tempFiles, commands);
        var partPath := DecompressGz(parts[k]);
        if partPath.None? {
          return Some(parts[k]);
        }
        var data := files[partPath.value];
        assert Content(files, mergedPath) == files[mergedPath];
        files := files[mergedPath := files[mergedPath] + data + "\n"];
        tempFiles := tempFiles + [partPath.value];
        assert tempFiles == before.temps + [partPath.value, partPath.value];
        k := k + 1;
      }
      assert parts[k..] == [];
      failed := None;
    }

    /** The loop over the groups, in key order: the merged file is opened
        empty, the sorted parts are merged into it, and it is recorded and
        gets a command. */
    method MergeGroupFiles(order: seq<string>, groups: map<string, seq<string>>, commands: seq<string>) returns (failed: Option<string>, commandLines: seq<string>)
      requires forall b :: b in order ==> b in groups
      modifies this`files, this`tempFiles
      ensures match MergeGroups(Run(old(files), old(tempFiles), commands), order, groups, config)
        case Halted(f, r) => failed == Some(f) && files == r.files && tempFiles == r.temps
        case Running(r) => failed.None? && files == r.files && tempFiles == r.temps && commandLines == r.commands
    {
      ghost var target := MergeGroups(Run(files, tempFiles, commands), order, groups, config);
      commandLines := commands;
      var j := 0;
      while j < |order|
        invariant 0 <= j <= |order|
        invariant MergeGroups(Run(files, tempFiles, commandLines), order[j..], groups, config) == target
      {
        var base := order[j];
        assert order[j..][1..] == order[j + 1..];
        assert base in groups by {
          assert base in order;
        }
        var parts := SortStrings(groups[base]);
        var mergedPath := MergedName(base);
        ghost var before := Run(files, tempFiles, commandLines);
        files := files[mergedPath := ""];
        ghost var emptied := Run(files, tempFiles, commandLines);
        assert emptied == before.(files := before.files[mergedPath := ""]);
        ghost var merging := MergeParts(emptied, mergedPath, parts);
        failed := MergePartFiles(mergedPath, parts, commandLines);
        if failed.Some? {
          assert MergeGroups(before, order[j..], groups, config) == merging;
          return failed, commandLines;
        }
        MergePartsRecorded(emptied, mergedPath, parts);
        tempFiles := tempFiles + [mergedPath];
        commandLines := commandLines + [Command(config, mergedPath)];
        assert MergeGroups(before, order[j..], groups, config)
            == MergeGroups(Run(files, tempFiles, commandLines), order[j + 1..], groups, config);
        j := j + 1;
      }
      assert order[j..] == [];
      failed := None;
    }

    /** The body of `importDatabases` between listing and script: group the
        archives, decompress the single ones, merge the groups, collecting the
        command lines after the preamble. */
    method RunSteps(gzFiles: seq<string>) returns (failed: Option<string>, commandLines: seq<string>)
      modifies this`files, this`tempFiles
      ensures match ImportSteps(old(files), old(tempFiles), gzFiles, config)
        case Halted(f, r) => failed == Some(f) && files == r.files && tempFiles == r.temps
        case Running(r) => failed.None? && files == r.files && tempFiles == r.temps && commandLines == r.commands
    {
      ghost var target := ImportSteps(files, tempFiles, gzFiles, config);
      var grouping := GroupGzFiles(gzFiles);
      ghost var start := Run(files, tempFiles, Preamble(config.isWin));
      GroupedKeys(gzFiles);
      failed, commandLines := DecompressSingleFiles(grouping.singles, Preamble(config.isWin));
      if failed.Some? {
        return;
      }
      assert target == MergeGroups(Run(files, tempFiles, commandLines), grouping.order, grouping.groups, config) by {
        assert DecompressSingles(start, grouping.singles, config) == Running(Run(files, tempFiles, commandLines));
      }
      failed, commandLines := MergeGroupFiles(grouping.order, grouping.groups, commandLines);
    }

    /** `importDatabases` after the connection is made, given the entries
        `readdirSync` lists, each once, and the optional name prefix. The
        `finally` runs `destructor` unless the process died on a gunzip error. */
    method ImportDatabases(listing: seq<string>, prefix: Option<string>) returns (outcome: ImportOutcome)
      requires Distinct(listing) && forall f :: f in listing <==> f in files
      modifies this`files, this`tempFiles, this`programFiles
      ensures outcome.Imported? ==> programFiles == old(programFiles)[ScriptName(config.isWin) := outcome.script]
      ensures !outcome.Imported? ==> programFiles == old(programFiles)
      ensures Archives(listing, prefix) == [] ==>
        outcome == NoArchives && tempFiles == old(tempFiles) && files == Cleaned(old(files), old(tempFiles))
      ensures Archives(listing, prefix) != [] ==>
        match ImportSteps(old(files), old(tempFiles), Archives(listing, prefix), config)
        case Halted(f, r) => outcome == Crashed(f) && files == r.files && tempFiles == r.temps
        case Running(r) =>
          && outcome == Imported(JoinWith(r.commands, LineSeparator(config.isWin)))
          && tempFiles == r.temps
          && files == Cleaned(r.files, r.temps)
    {
      var gzFiles := Archives(listing, prefix);
      if |gzFiles| == 0 {
        Destructor();
        return NoArchives;
      }
      var failed, commandLines := RunSteps(gzFiles);
      if failed.Some? {
        return Crashed(failed.value);
      }

      var script := JoinWith(commandLines, LineSeparator(config.isWin));
      programFiles := programFiles[ScriptName(config.isWin) := script];
      Destructor();
      return Imported(script);
    }

    /** What the constructor sets going: `cleanOldSQL()`, then
        `importDatabases()` on the entries left, which `readdirSync` lists
        as `listing`. */
    method CleanAndImport(listing: seq<string>, prefix: Option<string>) returns (outcome: ImportOutcome)
      requires Distinct(listing) && forall f :: f in listing <==> f in WithoutSql(files)
      modifies this`files, this`tempFiles, this`programFiles
      ensures outcome.Imported? ==> programFiles == old(programFiles)[ScriptName(config.isWin) := outcome.script]
      ensures !outcome.Imported? ==> programFiles == old(programFiles)
      ensures Archives(listing, prefix) == [] ==>
        outcome == NoArchives && tempFiles == old(tempFiles) && files == Cleaned(WithoutSql(old(files)), old(tempFiles))
      ensures Archives(listing, prefix) != [] ==>
        match ImportSteps(WithoutSql(old(files)), old(tempFiles), Archives(listing, prefix), config)
        case Halted(f, r) => outcome == Crashed(f) && files == r.files && tempFiles == r.temps
        case Running(r) =>
          && outcome == Imported(JoinWith(r.commands, LineSeparator(config.isWin)))
          && tempFiles == r.temps
          && files == Cleaned(r.files, r.temps)
    {
      CleanOldSql();
      outcome := ImportDatabases(listing, prefix);
    }
  }
}
