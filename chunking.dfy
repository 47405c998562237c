/** What `splitSQLFileByLine` computes, as functions: which lines end up in
    which part, and what the parts are called. The method that does the work
    on the backup directory (module DatabaseExport) is proved to write
    exactly these parts under exactly these names. */
module Chunking {
  import opened Strings
  import opened Unicode
  import opened Decimal

  /** `Buffer.byteLength(line + "\n")`: what one line adds to the running counter. */
  function LineBytes(line: string): (n: nat)
    ensures n == ByteLength(line) + 1
  {
    ByteLengthAppend(line, "\n");
    ByteLength(line + "\n")
  }

  /** The counter's value after the given lines: the sum of their UTF-8
      lengths plus one byte per line for its line feed. */
  function Size(lines: seq<string>): nat
  {
    if lines == [] then 0 else Size(lines[..|lines| - 1]) + LineBytes(lines[|lines| - 1])
  }

  /** The parts still to be produced when `rest` is left to read and `temp`
      holds the lines read since the last flush. A line is appended to
      `temp` first; the part is flushed as soon as the counter reaches the
      threshold; what is left at the end is flushed if it is not empty. */
  function ChunksFrom(rest: seq<string>, temp: seq<string>, chunkSize: nat): seq<seq<string>>
    decreases |rest|
  {
    if rest == [] then (if temp == [] then [] else [temp])
    else
      var t := temp + [rest[0]];
      if Size(t) >= chunkSize then [t] + ChunksFrom(rest[1..], [], chunkSize)
      else ChunksFrom(rest[1..], t, chunkSize)
  }

  /** The line lists of the parts, part 0 first. */
  function Chunks(lines: seq<string>, chunkSize: nat): seq<seq<string>>
  {
    ChunksFrom(lines, [], chunkSize)
  }

  /** `${sqlFilePath}.part${String(k).padStart(3, "0")}`. */
  function PartName(path: string, k: nat): string
  {
    path + ".part" + Pad3(k)
  }

  /** The names of parts 0 to n - 1, in that order. */
  function PartNames(path: string, n: nat): (names: seq<string>)
    ensures |names| == n
    ensures forall k :: 0 <= k < n ==> names[k] == PartName(path, k)
    decreases n
  {
    if n == 0 then [] else PartNames(path, n - 1) + [PartName(path, n - 1)]
  }

  /** Each text followed by a line feed, all in order: what the import side
      writes into a merged file. */
  function Terminated(texts: seq<string>): string
  {
    if texts == [] then [] else texts[0] + "\n" + Terminated(texts[1..])
  }

  // ---------------------------------------------------------------------
  // The counter.

  lemma {:induction false} SizeAppend(a: seq<string>, b: seq<string>)
    ensures Size(a + b) == Size(a) + Size(b)
    decreases |b|
  {
    if b == [] {
      assert a + b == a;
    } else {
      var ab := a + b;
      assert ab[..|ab| - 1] == a + b[..|b| - 1];
      assert ab[|ab| - 1] == b[|b| - 1];
      SizeAppend(a, b[..|b| - 1]);
    }
  }

  // ---------------------------------------------------------------------
  // Properties of the parts.

  /** Line preservation: the parts, read in order, hold exactly the lines. */
  lemma {:induction false} ChunksFromFlatten(rest: seq<string>, temp: seq<string>, chunkSize: nat)
    ensures Flatten(ChunksFrom(rest, temp, chunkSize)) == temp + rest
    decreases |rest|
  {
    if rest == [] {
      assert temp + rest == temp;
      if temp != [] {
        assert Flatten([temp]) == temp + Flatten([temp][1..]);
        assert [temp][1..] == [];
      }
    } else {
      var t := temp + [rest[0]];
      assert t + rest[1..] == temp + rest by {
        assert rest == [rest[0]] + rest[1..];
      }
      ChunksFromFlatten(rest[1..], if Size(t) >= chunkSize then [] else t, chunkSize);
      if Size(t) >= chunkSize {
        var tail := ChunksFrom(rest[1..], [], chunkSize);
        assert ([t] + tail)[0] == t && ([t] + tail)[1..] == tail;
        assert [] + rest[1..] == rest[1..];
      }
    }
  }

  lemma LinesPreserved(lines: seq<string>, chunkSize: nat)
    ensures Flatten(Chunks(lines, chunkSize)) == lines
  {
    ChunksFromFlatten(lines, [], chunkSize);
    assert [] + lines == lines;
  }

  /** The threshold rule, for the parts produced from a state whose pending
      lines are still below the threshold: no part is empty; every part but
      the last reached the threshold; and every part without its last line
      is below it, so a part is cut at the first line that reaches it. */
  predicate ThresholdRule(parts: seq<seq<string>>, chunkSize: nat) {
    && NoEmptyPart(parts)
    && (forall k :: 0 <= k < |parts| - 1 ==> Size(parts[k]) >= chunkSize)
    && (forall k :: 0 <= k < |parts| ==> CutAtThreshold(parts[k], chunkSize))
  }

  predicate NoEmptyPart(parts: seq<seq<string>>) {
    forall k :: 0 <= k < |parts| ==> |parts[k]| >= 1
  }

  /** The part without its last line is below the threshold. */
  predicate CutAtThreshold(part: seq<string>, chunkSize: nat) {
    |part| > 1 ==> Size(part[..|part| - 1]) < chunkSize
  }

  /** The counter of a non-empty list is that of the list without its last
      line plus what the last line adds. */
  lemma SizeLast(t: seq<string>)
    requires t != []
    ensures Size(t) >= Size(t[..|t| - 1])
  {
  }

  lemma ConsNoEmpty(t: seq<string>, tail: seq<seq<string>>)
    requires |t| >= 1 && NoEmptyPart(tail)
    ensures NoEmptyPart([t] + tail)
  {
    var parts := [t] + tail;
    forall k | 0 < k < |parts| ensures |parts[k]| >= 1 {
      assert parts[k] == tail[k - 1];
    }
  }

  lemma ConsFull(t: seq<string>, tail: seq<seq<string>>, chunkSize: nat)
    requires Size(t) >= chunkSize
    requires forall k :: 0 <= k < |tail| - 1 ==> Size(tail[k]) >= chunkSize
    ensures forall k :: 0 <= k < |[t] + tail| - 1 ==> Size(([t] + tail)[k]) >= chunkSize
  {
    var parts := [t] + tail;
    forall k | 0 < k < |parts| - 1 ensures Size(parts[k]) >= chunkSize {
      assert parts[k] == tail[k - 1];
    }
  }

  lemma ConsCut(t: seq<string>, tail: seq<seq<string>>, chunkSize: nat)
    requires CutAtThreshold(t, chunkSize)
    requires forall k :: 0 <= k < |tail| ==> CutAtThreshold(tail[k], chunkSize)
    ensures forall k :: 0 <= k < |[t] + tail| ==> CutAtThreshold(([t] + tail)[k], chunkSize)
  {
    var parts := [t] + tail;
    forall k | 0 < k < |parts| ensures CutAtThreshold(parts[k], chunkSize) {
      assert parts[k] == tail[k - 1];
    }
  }

  /** Prepending a flushed part that meets the rule keeps the rule. */
  lemma ThresholdCons(t: seq<string>, tail: seq<seq<string>>, chunkSize: nat)
    requires |t| >= 1 && Size(t) >= chunkSize && CutAtThreshold(t, chunkSize)
    requires ThresholdRule(tail, chunkSize)
    ensures ThresholdRule([t] + tail, chunkSize)
  {
    ConsNoEmpty(t, tail);
    ConsFull(t, tail, chunkSize);
    ConsCut(t, tail, chunkSize);
  }

  lemma {:induction false} ChunksFromThreshold(rest: seq<string>, temp: seq<string>, chunkSize: nat)
    requires temp == [] || Size(temp) < chunkSize
    ensures ThresholdRule(ChunksFrom(rest, temp, chunkSize), chunkSize)
    decreases |rest|
  {
    if rest == [] {
      if temp != [] {
        SizeLast(temp);
      }
    } else {
      var t := temp + [rest[0]];
      assert t[..|t| - 1] == temp;
      if Size(t) >= chunkSize {
        ChunksFromThreshold(rest[1..], [], chunkSize);
        ThresholdCons(t, ChunksFrom(rest[1..], [], chunkSize), chunkSize);
      } else {
        ChunksFromThreshold(rest[1..], t, chunkSize);
      }
    }
  }

  lemma PartsMeetThreshold(lines: seq<string>, chunkSize: nat)
    ensures ThresholdRule(Chunks(lines, chunkSize), chunkSize)
  {
    ChunksFromThreshold(lines, [], chunkSize);
  }

  /** There is at least one part when there is at least one line, and
      `split` always yields one: a split file has a `.part000`. */
  lemma {:induction false} ChunksFromNonEmpty(rest: seq<string>, temp: seq<string>, chunkSize: nat)
    requires rest != [] || temp != []
    ensures |ChunksFrom(rest, temp, chunkSize)| >= 1
    decreases |rest|
  {
    if rest != [] {
      var t := temp + [rest[0]];
      if Size(t) < chunkSize {
        ChunksFromNonEmpty(rest[1..], t, chunkSize);
      }
    }
  }

  /** When the counted size of all lines stays below the threshold the
      splitter writes one part, `.part000`, holding every line. This happens
      even though the caller only splits files larger than the threshold:
      the counter ignores carriage returns, and the file size does not. */
  lemma {:induction false} SmallInputOnePart(rest: seq<string>, temp: seq<string>, chunkSize: nat)
    requires rest != [] || temp != []
    requires Size(temp + rest) < chunkSize
    ensures ChunksFrom(rest, temp, chunkSize) == [temp + rest]
    decreases |rest|
  {
    if rest == [] {
      assert temp + rest == temp;
    } else {
      var t := temp + [rest[0]];
      assert t + rest[1..] == temp + rest by {
        assert rest == [rest[0]] + rest[1..];
      }
      SizeAppend(t, rest[1..]);
      SmallInputOnePart(rest[1..], t, chunkSize);
    }
  }

  lemma OnePartWhenSmall(lines: seq<string>, chunkSize: nat)
    requires lines != [] && Size(lines) < chunkSize
    ensures Chunks(lines, chunkSize) == [lines]
  {
    assert [] + lines == lines;
    SmallInputOnePart(lines, [], chunkSize);
  }

  /** Joining every part with LF and terminating each with LF gives all the
      lines joined with LF plus one final LF: this is the merge round trip. */
  lemma {:induction false} TerminatedJoin(parts: seq<seq<string>>)
    requires |parts| >= 1
    requires forall k :: 0 <= k < |parts| ==> |parts[k]| >= 1
    ensures Terminated(seq(|parts|, k requires 0 <= k < |parts| => JoinWith(parts[k], "\n")))
         == JoinWith(Flatten(parts), "\n") + "\n"
    decreases |parts|
  {
    var texts := seq(|parts|, k requires 0 <= k < |parts| => JoinWith(parts[k], "\n"));
    if |parts| == 1 {
      assert Flatten(parts) == parts[0] + Flatten(parts[1..]);
      assert parts[1..] == [] && parts[0] + [] == parts[0];
      assert texts[1..] == [];
    } else {
      var rest := parts[1..];
      TerminatedJoin(rest);
      assert texts[1..] == seq(|rest|, k requires 0 <= k < |rest| => JoinWith(rest[k], "\n"));
      ChunksFromNonEmptyFlatten(rest);
      JoinWithAppend(parts[0], Flatten(rest), "\n");
    }
  }

  lemma {:induction false} ChunksFromNonEmptyFlatten(parts: seq<seq<string>>)
    requires |parts| >= 1 && |parts[0]| >= 1
    ensures |Flatten(parts)| >= 1
  {
  }

  // ---------------------------------------------------------------------
  // Part names.

  /** Distinct indices give distinct part names. */
  lemma PartNameInjective(path: string, j: nat, k: nat)
    requires PartName(path, j) == PartName(path, k)
    ensures j == k
  {
    var p := path + ".part";
    assert PartName(path, j)[|p|..] == Pad3(j);
    assert PartName(path, k)[|p|..] == Pad3(k);
    Pad3Injective(j, k);
  }

  lemma PartNamesDiffer(path: string, j: nat, k: nat)
    requires j != k
    ensures PartName(path, j) != PartName(path, k)
  {
    if PartName(path, j) == PartName(path, k) {
      PartNameInjective(path, j, k);
    }
  }

  /** A part name ends with a digit. */
  lemma PartNameEndsWithDigit(path: string, k: nat)
    ensures |PartName(path, k)| > 0 && IsDigit(PartName(path, k)[|PartName(path, k)| - 1])
  {
    var d := Pad3(k);
    assert |d| >= 1 by {
      assert |NatToString(k)| >= 1;
    }
    assert PartName(path, k)[|PartName(path, k)| - 1] == d[|d| - 1];
  }

  lemma Utf16ThreeDigits(n: nat)
    requires n < 1000
    ensures Utf16(Pad3(n)) == [48 + n / 100, 48 + n / 10 % 10, 48 + n % 10]
  {
    Pad3Digits(n);
    var d := Pad3(n);
    assert d[1..] == [d[1], d[2]] && d[1..][1..] == [d[2]] && d[1..][1..][1..] == [];
    assert Utf16(d[1..][1..]) == CodeUnits(d[2]) + Utf16([]);
    assert Utf16(d[1..]) == CodeUnits(d[1]) + Utf16(d[1..][1..]);
    assert Utf16(d) == CodeUnits(d[0]) + Utf16(d[1..]);
  }

  lemma LexLessThree(a: seq<int>, b: seq<int>, u: seq<int>)
    requires |a| == 3 && |b| == 3
    ensures LexLess(a + u, b + u) <==>
      a[0] < b[0] || (a[0] == b[0] && (a[1] < b[1] || (a[1] == b[1] && a[2] < b[2])))
  {
    LexLessIrreflexive(u);
    var x0, y0 := a + u, b + u;
    assert x0[0] == a[0] && y0[0] == b[0];
    var x1, y1 := x0[1..], y0[1..];
    assert x1 == a[1..] + u && y1 == b[1..] + u;
    assert x1[0] == a[1] && y1[0] == b[1];
    var x2, y2 := x1[1..], y1[1..];
    assert x2 == a[2..] + u && y2 == b[2..] + u;
    assert x2[0] == a[2] && y2[0] == b[2];
    assert x2[1..] == u && y2[1..] == u;
    assert LexLess(x2, y2) == if a[2] != b[2] then a[2] < b[2] else LexLess(u, u);
    assert LexLess(x1, y1) == if a[1] != b[1] then a[1] < b[1] else LexLess(x2, y2);
    assert LexLess(x0, y0) == if a[0] != b[0] then a[0] < b[0] else LexLess(x1, y1);
  }

  /** A number below 1000 is its hundreds, tens and units digits. */
  lemma ThreeDigits(j: nat)
    requires j < 1000
    ensures j == 100 * (j / 100) + 10 * (j / 10 % 10) + j % 10
    ensures j / 100 < 10 && j / 10 % 10 < 10 && j % 10 < 10
  {
  }

  /** Digit triples compare lexicographically as the numbers they spell. */
  lemma DigitTripleOrder(a0: int, a1: int, a2: int, b0: int, b1: int, b2: int)
    requires 0 <= a1 < 10 && 0 <= a2 < 10 && 0 <= b1 < 10 && 0 <= b2 < 10
    ensures (a0 < b0 || (a0 == b0 && (a1 < b1 || (a1 == b1 && a2 < b2))))
        <==> 100 * a0 + 10 * a1 + a2 < 100 * b0 + 10 * b1 + b2
  {
  }

  /** Three digits compare, as code units followed by a common suffix, as the numbers do. */
  lemma ThreeDigitOrder(j: nat, k: nat, suffix: string)
    requires j < 1000 && k < 1000
    ensures Before(Pad3(j) + suffix, Pad3(k) + suffix) <==> j < k
  {
    Utf16ThreeDigits(j);
    Utf16ThreeDigits(k);
    Utf16Append(Pad3(j), suffix);
    Utf16Append(Pad3(k), suffix);
    var a := [48 + j / 100, 48 + j / 10 % 10, 48 + j % 10];
    var b := [48 + k / 100, 48 + k / 10 % 10, 48 + k % 10];
    LexLessThree(a, b, Utf16(suffix));
    ThreeDigits(j);
    ThreeDigits(k);
    DigitTripleOrder(j / 100, j / 10 % 10, j % 10, k / 100, k / 10 % 10, k % 10);
  }

  lemma PartNameWithSuffix(path: string, k: nat, suffix: string)
    ensures PartName(path, k) + suffix == (path + ".part") + (Pad3(k) + suffix)
  {
  }

  /** Padded-index ordering: below 1000 parts, the lexical order of the part
      names (with any common suffix, such as `.gz`) is their numeric order. */
  lemma PartNameOrder(path: string, j: nat, k: nat, suffix: string)
    requires j < 1000 && k < 1000
    ensures Before(PartName(path, j) + suffix, PartName(path, k) + suffix) <==> j < k
  {
    PartNameWithSuffix(path, j, suffix);
    PartNameWithSuffix(path, k, suffix);
    BeforeCommonPrefix(path + ".part", Pad3(j) + suffix, Pad3(k) + suffix);
    ThreeDigitOrder(j, k, suffix);
  }

  /** The padding is too narrow from part 1000 on: `.part1000` sorts before `.part999`. */
  lemma PartOrderBreaksAtThousand(path: string, suffix: string)
    ensures Before(PartName(path, 1000) + suffix, PartName(path, 999) + suffix)
  {
    var p := path + ".part";
    Pad3Long(1000);
    Pad3Digits(999);
    assert NatToString(1000)[0] == '1' by {
      assert NatToString(1000) == NatToString(100) + "0";
      assert NatToString(100) == NatToString(10) + "0";
      assert NatToString(10) == NatToString(1) + "0";
    }
    var x := Pad3(1000) + suffix;
    var y := Pad3(999) + suffix;
    assert PartName(path, 1000) + suffix == p + x;
    assert PartName(path, 999) + suffix == p + y;
    BeforeCommonPrefix(p, x, y);
    assert x == [x[0]] + x[1..] && x[0] == '1';
    assert y == [y[0]] + y[1..] && y[0] == '9';
    Utf16Append([x[0]], x[1..]);
    Utf16Append([y[0]], y[1..]);
  }
}
