/** String operations of the JavaScript runtime that the pipeline relies on:
    `startsWith`, `endsWith`, `split` on one character or on the line-break
    pattern `/\r?\n/`, `join`, and a global character replacement. */
module Strings {
  import opened Wrappers

  predicate StartsWith(s: string, prefix: string) {
    |prefix| <= |s| && s[..|prefix|] == prefix
  }

  predicate EndsWith(s: string, suffix: string) {
    |suffix| <= |s| && s[|s| - |suffix|..] == suffix
  }

  /** A text that ends with a suffix ends with the suffix's last character. */
  lemma EndsWithLast(s: string, suffix: string)
    requires suffix != []
    ensures EndsWith(s, suffix) ==> s != [] && s[|s| - 1] == suffix[|suffix| - 1]
  {
    if EndsWith(s, suffix) {
      assert s[|s| - |suffix|..][|suffix| - 1] == s[|s| - 1];
    }
  }

  /** `s.split(c)` for a one-character separator `c`: the pieces between the
      occurrences of `c`; never empty (`"".split(",")` is `[""]`). */
  function SplitOn(s: string, c: char): (pieces: seq<string>)
    ensures |pieces| >= 1
    ensures forall i :: 0 <= i < |pieces| ==> c !in pieces[i]
    decreases |s|
  {
    if s == [] then [[]]
    else
      var rest := SplitOn(s[1..], c);
      if s[0] == c then [[]] + rest
      else [[s[0]] + rest[0]] + rest[1..]
  }

  /** `xs.join(sep)`; the empty list joins to the empty string. */
  function JoinWith(xs: seq<string>, sep: string): string
  {
    if xs == [] then []
    else if |xs| == 1 then xs[0]
    else xs[0] + sep + JoinWith(xs[1..], sep)
  }

  /** Concatenation of a list of lists, in order. */
  function Flatten<T>(xss: seq<seq<T>>): seq<T>
  {
    if xss == [] then [] else xss[0] + Flatten(xss[1..])
  }

  /** Removes one trailing carriage return. */
  function DropCr(line: string): string
  {
    if |line| > 0 && line[|line| - 1] == '\r' then line[..|line| - 1] else line
  }

  /** Drops one trailing carriage return from every piece except the last:
      the pieces that a line feed followed are exactly the non-last ones. */
  function DropCrs(pieces: seq<string>): (lines: seq<string>)
    ensures |lines| == |pieces|
  {
    if |pieces| <= 1 then pieces else [DropCr(pieces[0])] + DropCrs(pieces[1..])
  }

  /** `s.split(/\r?\n/)`: a line feed ends a line, and a carriage return
      directly before it belongs to the break, not to the line. */
  function SplitLines(s: string): (lines: seq<string>)
    ensures |lines| >= 1
  {
    DropCrs(SplitOn(s, '\n'))
  }

  /** `s` with every CR LF pair replaced by a single LF. */
  function NormalizeNewlines(s: string): string
    decreases |s|
  {
    if s == [] then []
    else if |s| >= 2 && s[0] == '\r' && s[1] == '\n' then "\n" + NormalizeNewlines(s[2..])
    else [s[0]] + NormalizeNewlines(s[1..])
  }

  /** `p.replace(/\\/g, "/")`: every backslash becomes a slash. */
  function ToForwardSlashes(p: string): (q: string)
    ensures |q| == |p|
    ensures forall i :: 0 <= i < |p| ==> q[i] == if p[i] == '\\' then '/' else p[i]
    ensures '\\' !in q
  {
    if p == [] then []
    else [if p[0] == '\\' then '/' else p[0]] + ToForwardSlashes(p[1..])
  }

  // ---------------------------------------------------------------------
  // Split and join are inverse to each other.

  /** Joining the pieces of a split with the separator gives the input back. */
  lemma {:induction false} JoinSplitOn(s: string, c: char)
    ensures JoinWith(SplitOn(s, c), [c]) == s
    decreases |s|
  {
    if s != [] {
      var rest := SplitOn(s[1..], c);
      JoinSplitOn(s[1..], c);
      if s[0] == c {
        assert SplitOn(s, c) == [[]] + rest;
        assert ([[]] + rest)[1..] == rest;
        assert s == [c] + s[1..];
      } else if |rest| == 1 {
        assert SplitOn(s, c) == [[s[0]] + rest[0]];
        assert s == [s[0]] + s[1..];
      } else {
        var pieces := SplitOn(s, c);
        assert pieces == [[s[0]] + rest[0]] + rest[1..];
        assert pieces[1..] == rest[1..];
        assert JoinWith(rest, [c]) == rest[0] + [c] + JoinWith(rest[1..], [c]);
        assert s == [s[0]] + s[1..];
      }
    }
  }

  /** Splitting `a + u` where `a` holds no separator extends the first piece. */
  lemma {:induction false} SplitOnPrefix(a: string, u: string, c: char)
    requires c !in a
    ensures SplitOn(a + u, c) == [a + SplitOn(u, c)[0]] + SplitOn(u, c)[1..]
    decreases |a|
  {
    if a != [] {
      var v := a + u;
      assert v[0] == a[0] && v[1..] == a[1..] + u;
      SplitOnPrefix(a[1..], u, c);
      var r := SplitOn(v[1..], c);
      var w := SplitOn(u, c);
      assert r == [a[1..] + w[0]] + w[1..];
      assert SplitOn(v, c) == [[a[0]] + r[0]] + r[1..];
      assert r[0] == a[1..] + w[0] && r[1..] == w[1..];
      assert [a[0]] + (a[1..] + w[0]) == a + w[0];
      assert a == [a[0]] + a[1..];
    } else {
      var w := SplitOn(u, c);
      assert a + u == u && a + w[0] == w[0] && w == [w[0]] + w[1..];
    }
  }

  /** Splitting a join gives back the list when no element holds the separator. */
  lemma {:induction false} SplitJoinWith(xs: seq<string>, c: char)
    requires |xs| >= 1
    requires forall i :: 0 <= i < |xs| ==> c !in xs[i]
    ensures SplitOn(JoinWith(xs, [c]), c) == xs
    decreases |xs|
  {
    if |xs| == 1 {
      SplitOnPrefix(xs[0], [], c);
      assert xs[0] + [] == xs[0];
    } else {
      SplitJoinWith(xs[1..], c);
      assert JoinWith(xs, [c]) == xs[0] + ([c] + JoinWith(xs[1..], [c]));
      SplitOnSeparated(xs[0], JoinWith(xs[1..], [c]), c);
      assert xs == [xs[0]] + xs[1..];
    }
  }

  /** A piece without the separator, the separator, and the rest split into
      that piece followed by the rest's pieces. */
  lemma SplitOnSeparated(x: string, t: string, c: char)
    requires c !in x
    ensures SplitOn(x + ([c] + t), c) == [x] + SplitOn(t, c)
  {
    var ct := [c] + t;
    assert ct[0] == c && ct[1..] == t;
    var w := SplitOn(ct, c);
    assert w == [[]] + SplitOn(t, c);
    SplitOnPrefix(x, ct, c);
    assert x + w[0] == x;
  }

  lemma SplitLinesLf(t: string)
    ensures SplitLines("\n" + t) == [[]] + SplitLines(t)
  {
    var s := "\n" + t;
    assert s[0] == '\n' && s[1..] == t;
    assert SplitOn(s, '\n') == [[]] + SplitOn(t, '\n');
    assert ([[]] + SplitOn(t, '\n'))[1..] == SplitOn(t, '\n');
  }

  lemma SplitLinesCrLf(t: string)
    ensures SplitLines("\r\n" + t) == [[]] + SplitLines(t)
  {
    var s := "\r\n" + t;
    assert s[0] == '\r' && s[1..] == "\n" + t;
    assert ("\n" + t)[0] == '\n' && ("\n" + t)[1..] == t;
    var r := SplitOn(s[1..], '\n');
    assert r == [[]] + SplitOn(t, '\n');
    assert r[0] == [] && r[1..] == SplitOn(t, '\n');
    var pieces := SplitOn(s, '\n');
    assert pieces == [[s[0]] + r[0]] + r[1..];
    assert [s[0]] + r[0] == ['\r'];
    assert pieces == [['\r']] + SplitOn(t, '\n');
    assert pieces[1..] == SplitOn(t, '\n');
    assert DropCr(['\r']) == [];
  }

  /** A character that starts neither a line feed nor a CR LF pair joins the first line. */
  lemma SplitLinesCons(x: char, t: string)
    requires x != '\n'
    requires !(x == '\r' && |t| > 0 && t[0] == '\n')
    ensures SplitLines([x] + t) == [[x] + SplitLines(t)[0]] + SplitLines(t)[1..]
  {
    var s := [x] + t;
    assert s[0] == x && s[1..] == t;
    var r := SplitOn(t, '\n');
    var pieces := SplitOn(s, '\n');
    assert pieces == [[x] + r[0]] + r[1..];
    if |r| == 1 {
      assert SplitLines(s) == [[x] + r[0]];
      assert SplitLines(t) == [r[0]];
    } else {
      assert pieces[1..] == r[1..];
      if r[0] == [] {
        assert t != [] && t[0] == '\n';
      }
      assert DropCr([x] + r[0]) == [x] + DropCr(r[0]);
      assert SplitLines(t) == [DropCr(r[0])] + DropCrs(r[1..]);
    }
  }

  lemma JoinWithCons(x: char, xs: seq<string>, sep: string)
    requires |xs| >= 1
    ensures JoinWith([[x] + xs[0]] + xs[1..], sep) == [x] + JoinWith(xs, sep)
  {
    var ys := [[x] + xs[0]] + xs[1..];
    assert ys[0] == [x] + xs[0] && ys[1..] == xs[1..];
  }

  /** Joining the lines of `s` with LF gives `s` with CR LF normalised to LF. */
  lemma {:induction false} JoinSplitLines(s: string)
    ensures JoinWith(SplitLines(s), "\n") == NormalizeNewlines(s)
    decreases |s|
  {
    if s == [] {
    } else if |s| >= 2 && s[0] == '\r' && s[1] == '\n' {
      JoinSplitLines(s[2..]);
      assert s == "\r\n" + s[2..];
      JoinLinesCrLf(s[2..]);
    } else if s[0] == '\n' {
      JoinSplitLines(s[1..]);
      assert s == "\n" + s[1..];
      JoinLinesLf(s[1..]);
    } else {
      JoinSplitLines(s[1..]);
      assert s == [s[0]] + s[1..];
      JoinLinesOther(s[0], s[1..]);
    }
  }

  lemma JoinLinesLf(t: string)
    requires JoinWith(SplitLines(t), "\n") == NormalizeNewlines(t)
    ensures JoinWith(SplitLines("\n" + t), "\n") == NormalizeNewlines("\n" + t)
  {
    SplitLinesLf(t);
    assert ([[]] + SplitLines(t))[1..] == SplitLines(t);
    assert ("\n" + t)[1..] == t;
  }

  lemma JoinLinesCrLf(t: string)
    requires JoinWith(SplitLines(t), "\n") == NormalizeNewlines(t)
    ensures JoinWith(SplitLines("\r\n" + t), "\n") == NormalizeNewlines("\r\n" + t)
  {
    SplitLinesCrLf(t);
    assert ([[]] + SplitLines(t))[1..] == SplitLines(t);
    assert ("\r\n" + t)[2..] == t;
  }

  lemma JoinLinesOther(x: char, t: string)
    requires x != '\n' && !(x == '\r' && |t| > 0 && t[0] == '\n')
    requires JoinWith(SplitLines(t), "\n") == NormalizeNewlines(t)
    ensures JoinWith(SplitLines([x] + t), "\n") == NormalizeNewlines([x] + t)
  {
    NormalizeCons(x, t);
    var lines := SplitLines(t);
    SplitLinesCons(x, t);
    JoinWithCons(x, lines, "\n");
  }

  lemma NormalizeCons(x: char, t: string)
    requires !(x == '\r' && |t| > 0 && t[0] == '\n')
    ensures NormalizeNewlines([x] + t) == [x] + NormalizeNewlines(t)
  {
    var s := [x] + t;
    assert s[0] == x && s[1..] == t;
  }

  // ---------------------------------------------------------------------
  // Concatenation facts used by the chunk round trip.

  lemma {:induction false} FlattenAppend<T>(a: seq<seq<T>>, b: seq<seq<T>>)
    ensures Flatten(a + b) == Flatten(a) + Flatten(b)
    decreases |a|
  {
    if a != [] {
      assert (a + b)[0] == a[0] && (a + b)[1..] == a[1..] + b;
      FlattenAppend(a[1..], b);
      calc {
        Flatten(a + b);
        a[0] + Flatten(a[1..] + b);
        a[0] + (Flatten(a[1..]) + Flatten(b));
        (a[0] + Flatten(a[1..])) + Flatten(b);
      }
    } else {
      assert a + b == b;
    }
  }

  /** Joining two non-empty lists back to back puts one separator between them. */
  lemma {:induction false} JoinWithAppend(a: seq<string>, b: seq<string>, sep: string)
    requires |a| >= 1 && |b| >= 1
    ensures JoinWith(a + b, sep) == JoinWith(a, sep) + sep + JoinWith(b, sep)
    decreases |a|
  {
    if |a| > 1 {
      assert (a + b)[1..] == a[1..] + b;
      JoinWithAppend(a[1..], b, sep);
    }
  }

  // ---------------------------------------------------------------------
  // The optional name-prefix argument and order-preserving selection.

  /** `!process.argv[2] || name.startsWith(process.argv[2])`, the filter both
      the export and the import apply: no argument and an empty argument
      both select everything. */
  predicate Selected(name: string, prefix: Option<string>) {
    prefix.None? || prefix.value == "" || StartsWith(name, prefix.value)
  }

  /** `a` is `b` with some elements left out, in the same order. */
  predicate IsSubsequence(a: seq<string>, b: seq<string>)
    decreases |b|
  {
    if a == [] then true
    else if b == [] then false
    else if a[0] == b[0] then IsSubsequence(a[1..], b[1..])
    else IsSubsequence(a, b[1..])
  }

  /** Dropping the first element of the shorter list keeps it a subsequence. */
  lemma {:induction false} SubsequenceWeaken(a: seq<string>, c: seq<string>)
    requires a != [] && IsSubsequence(a, c)
    ensures IsSubsequence(a[1..], c)
    decreases |c|
  {
    if a[1..] != [] {
      if a[0] == c[0] {
        if a[1..][0] == c[0] {
          SubsequenceWeaken(a[1..], c[1..]);
        }
      } else {
        SubsequenceWeaken(a, c[1..]);
        if a[1..][0] == c[0] {
          SubsequenceWeaken(a[1..], c[1..]);
        }
      }
    }
  }

  lemma SubsequenceSkip(a: seq<string>, b: seq<string>)
    requires b != [] && IsSubsequence(a, b[1..])
    ensures IsSubsequence(a, b)
  {
    if a != [] && a[0] == b[0] {
      SubsequenceWeaken(a, b[1..]);
    }
  }

  /** No name twice, as in a directory listing. */
  predicate Distinct(s: seq<string>) {
    forall i, j :: 0 <= i < j < |s| ==> s[i] != s[j]
  }
}
