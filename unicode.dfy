/** Character encodings that the pipeline's arithmetic and ordering depend on.
    A Dafny `char` is a Unicode scalar value. Node's `Buffer.byteLength` counts
    the UTF-8 bytes of a string (RFC 3629). JavaScript compares strings, and
    `Array.prototype.sort` orders them by default, by UTF-16 code units. */
module Unicode {

  /** Bytes taken by one scalar value in UTF-8 (RFC 3629, section 3). */
  function Utf8Width(c: char): (w: nat)
    ensures 1 <= w <= 4
  {
    if c as int < 0x80 then 1
    else if c as int < 0x800 then 2
    else if c as int < 0x10000 then 3
    else 4
  }

  /** The UTF-8 encoding of one scalar value, byte by byte (RFC 3629, section 3). */
  function Utf8Bytes(c: char): (bytes: seq<int>)
    ensures |bytes| == Utf8Width(c)
    ensures forall i :: 0 <= i < |bytes| ==> 0 <= bytes[i] < 0x100
  {
    var v := c as int;
    if v < 0x80 then [v]
    else if v < 0x800 then [0xC0 + v / 0x40, 0x80 + v % 0x40]
    else if v < 0x10000 then [0xE0 + v / 0x1000, 0x80 + v / 0x40 % 0x40, 0x80 + v % 0x40]
    else [0xF0 + v / 0x40000, 0x80 + v / 0x1000 % 0x40, 0x80 + v / 0x40 % 0x40, 0x80 + v % 0x40]
  }

  /** The UTF-8 encoding of a string. */
  function Utf8Encode(s: string): seq<int>
  {
    if s == [] then [] else Utf8Bytes(s[0]) + Utf8Encode(s[1..])
  }

  /** `Buffer.byteLength(s)`: the number of bytes in the UTF-8 encoding of `s`. */
  function ByteLength(s: string): (n: nat)
    ensures |s| <= n <= 4 * |s|
  {
    if s == [] then 0 else Utf8Width(s[0]) + ByteLength(s[1..])
  }

  /** The count `ByteLength` gives is the length of the actual encoding. */
  lemma {:induction false} ByteLengthIsEncodedLength(s: string)
    ensures |Utf8Encode(s)| == ByteLength(s)
    decreases |s|
  {
    if s != [] {
      ByteLengthIsEncodedLength(s[1..]);
    }
  }

  lemma {:induction false} ByteLengthAppend(a: string, b: string)
    ensures ByteLength(a + b) == ByteLength(a) + ByteLength(b)
    decreases |a|
  {
    if a == [] {
      assert a + b == b;
    } else {
      assert (a + b)[0] == a[0] && (a + b)[1..] == a[1..] + b;
      ByteLengthAppend(a[1..], b);
    }
  }

  // ---------------------------------------------------------------------
  // UTF-16 code units and the order JavaScript puts strings in.

  /** The UTF-16 code units of one scalar value: itself, or a surrogate pair. */
  function CodeUnits(c: char): (units: seq<int>)
    ensures 1 <= |units| <= 2
  {
    var v := c as int;
    if v < 0x10000 then [v]
    else [0xD800 + (v - 0x10000) / 0x400, 0xDC00 + (v - 0x10000) % 0x400]
  }

  /** The UTF-16 form of a string, which is what JavaScript compares. */
  function Utf16(s: string): seq<int>
  {
    if s == [] then [] else CodeUnits(s[0]) + Utf16(s[1..])
  }

  lemma {:induction false} Utf16Append(a: string, b: string)
    ensures Utf16(a + b) == Utf16(a) + Utf16(b)
    decreases |a|
  {
    if a == [] {
      assert a + b == b;
    } else {
      assert (a + b)[0] == a[0] && (a + b)[1..] == a[1..] + b;
      Utf16Append(a[1..], b);
    }
  }

  /** Lexicographic order on code-unit sequences; a proper prefix comes first. */
  predicate LexLess(a: seq<int>, b: seq<int>)
    decreases |a|
  {
    if a == [] then b != []
    else if b == [] then false
    else if a[0] != b[0] then a[0] < b[0]
    else LexLess(a[1..], b[1..])
  }

  /** JavaScript's `a < b` on strings, and the order of the default `sort()`. */
  predicate Before(a: string, b: string) {
    LexLess(Utf16(a), Utf16(b))
  }

  lemma {:induction false} LexLessIrreflexive(a: seq<int>)
    ensures !LexLess(a, a)
    decreases |a|
  {
    if a != [] {
      LexLessIrreflexive(a[1..]);
    }
  }

  lemma {:induction false} LexLessTransitive(a: seq<int>, b: seq<int>, c: seq<int>)
    requires LexLess(a, b) && LexLess(b, c)
    ensures LexLess(a, c)
    decreases |a|
  {
    if a != [] && a[0] == b[0] && b[0] == c[0] {
      LexLessTransitive(a[1..], b[1..], c[1..]);
    }
  }

  lemma {:induction false} LexLessTotal(a: seq<int>, b: seq<int>)
    requires a != b
    ensures LexLess(a, b) || LexLess(b, a)
    decreases |a|
  {
    if a != [] && b != [] && a[0] == b[0] {
      assert a == [a[0]] + a[1..] && b == [b[0]] + b[1..];
      LexLessTotal(a[1..], b[1..]);
    }
  }

  /** A common prefix does not affect the order. */
  lemma {:induction false} LexLessCommonPrefix(p: seq<int>, x: seq<int>, y: seq<int>)
    ensures LexLess(p + x, p + y) == LexLess(x, y)
    decreases |p|
  {
    if p == [] {
      assert p + x == x && p + y == y;
    } else {
      assert (p + x)[0] == p[0] && (p + x)[1..] == p[1..] + x;
      assert (p + y)[0] == p[0] && (p + y)[1..] == p[1..] + y;
      LexLessCommonPrefix(p[1..], x, y);
    }
  }

  /** Strings sharing a prefix compare as their remainders do. */
  lemma BeforeCommonPrefix(p: string, x: string, y: string)
    ensures Before(p + x, p + y) == Before(x, y)
  {
    Utf16Append(p, x);
    Utf16Append(p, y);
    LexLessCommonPrefix(Utf16(p), Utf16(x), Utf16(y));
  }

  lemma BeforeAsymmetric(a: string, b: string)
    requires Before(a, b)
    ensures !Before(b, a)
  {
    if Before(b, a) {
      LexLessTransitive(Utf16(a), Utf16(b), Utf16(a));
      LexLessIrreflexive(Utf16(a));
    }
  }

  /** "Not before" is transitive: the order is a strict weak order. */
  lemma NotBeforeTransitive(a: string, b: string, c: string)
    requires !Before(a, b) && !Before(b, c)
    ensures !Before(a, c)
  {
    var ua, ub, uc := Utf16(a), Utf16(b), Utf16(c);
    if LexLess(ua, uc) {
      if ua != ub {
        LexLessTotal(ua, ub);
      }
      if ub != uc {
        LexLessTotal(ub, uc);
      }
      if ua != ub && ub != uc {
        LexLessTransitive(uc, ub, ua);
        LexLessTransitive(ua, uc, ua);
        LexLessIrreflexive(ua);
      }
    }
  }

  // ---------------------------------------------------------------------
  // The default sort of an array of strings.

  /** No element is before an element to its left. */
  predicate Sorted(s: seq<string>) {
    forall i, j :: 0 <= i < j < |s| ==> !Before(s[j], s[i])
  }

  /** Every element is before every element to its right (hence no repeats). */
  predicate StrictlySorted(s: seq<string>) {
    forall i, j :: 0 <= i < j < |s| ==> Before(s[i], s[j])
  }

  function Insert(x: string, s: seq<string>): (r: seq<string>)
    ensures multiset(r) == multiset(s) + multiset{x}
  {
    if s == [] then [x]
    else if Before(s[0], x) then
      assert s == [s[0]] + s[1..];
      [s[0]] + Insert(x, s[1..])
    else [x] + s
  }

  /** `names.sort()`: insertion sort under the code-unit order. V8's sort is
      stable, and so is this one: elements that do not compare keep their
      relative order. */
  function SortStrings(s: seq<string>): (r: seq<string>)
    ensures multiset(r) == multiset(s)
  {
    if s == [] then []
    else
      assert s == [s[0]] + s[1..];
      Insert(s[0], SortStrings(s[1..]))
  }

  lemma {:induction false} InsertSorted(x: string, s: seq<string>)
    requires Sorted(s)
    ensures Sorted(Insert(x, s))
    decreases |s|
  {
    if s == [] {
    } else if Before(s[0], x) {
      InsertSorted(x, s[1..]);
      InsertAfterHead(x, s);
    } else {
      InsertAtHead(x, s);
    }
  }

  /** A sorted list stays sorted with an element in front that nothing in
      it sorts before. */
  lemma SortedCons(x: string, s: seq<string>)
    requires Sorted(s)
    requires forall j :: 0 <= j < |s| ==> !Before(s[j], x)
    ensures Sorted([x] + s)
  {
    var r := [x] + s;
    forall i, j | 0 <= i < j < |r| ensures !Before(r[j], r[i]) {
      assert r[j] == s[j - 1];
      if i > 0 {
        assert r[i] == s[i - 1];
      }
    }
  }

  /** The head stays in front when the new element comes after it. */
  lemma InsertAfterHead(x: string, s: seq<string>)
    requires Sorted(s) && s != [] && Before(s[0], x)
    requires Sorted(Insert(x, s[1..]))
    ensures Sorted(Insert(x, s))
  {
    var tail := Insert(x, s[1..]);
    assert Insert(x, s) == [s[0]] + tail;
    forall j | 0 <= j < |tail|
      ensures !Before(tail[j], s[0])
    {
      assert tail[j] in multiset(tail);
      if tail[j] == x {
        BeforeAsymmetric(s[0], x);
      } else {
        assert tail[j] in multiset(s[1..]);
        var k :| 0 <= k < |s[1..]| && s[1..][k] == tail[j];
        assert s[k + 1] == tail[j];
      }
    }
    SortedCons(s[0], tail);
  }

  /** An element that is not after the head goes in front. */
  lemma InsertAtHead(x: string, s: seq<string>)
    requires Sorted(s) && s != [] && !Before(s[0], x)
    ensures Sorted(Insert(x, s))
  {
    assert Insert(x, s) == [x] + s;
    forall j | 0 <= j < |s|
      ensures !Before(s[j], x)
    {
      if j > 0 {
        NotBeforeTransitive(s[j], s[0], x);
      }
    }
    SortedCons(x, s);
  }

  lemma {:induction false} SortStringsSorted(s: seq<string>)
    ensures Sorted(SortStrings(s))
    decreases |s|
  {
    if s != [] {
      SortStringsSorted(s[1..]);
      InsertSorted(s[0], SortStrings(s[1..]));
    }
  }

  /** The first element of a sorted permutation of a strictly sorted list is its first. */
  lemma SortedPermutationHead(r: seq<string>, t: seq<string>)
    requires Sorted(r) && StrictlySorted(t)
    requires multiset(r) == multiset(t) && r != []
    ensures t != [] && r[0] == t[0]
  {
    assert r[0] in multiset(t);
    var j :| 0 <= j < |t| && t[j] == r[0];
    assert t[0] in multiset(r);
    var i :| 0 <= i < |r| && r[i] == t[0];
    if j > 0 {
      assert Before(t[0], t[j]);
      if i == 0 {
        LexLessIrreflexive(Utf16(t[0]));
      } else {
        assert !Before(r[i], r[0]);
      }
    }
  }

  lemma SortedTail(r: seq<string>)
    requires Sorted(r) && r != []
    ensures Sorted(r[1..])
  {
    forall i, j | 0 <= i < j < |r[1..]| ensures !Before(r[1..][j], r[1..][i]) {
      assert r[1..][j] == r[j + 1] && r[1..][i] == r[i + 1];
    }
  }

  lemma StrictlySortedTail(t: seq<string>)
    requires StrictlySorted(t) && t != []
    ensures StrictlySorted(t[1..])
  {
    forall i, j | 0 <= i < j < |t[1..]| ensures Before(t[1..][i], t[1..][j]) {
      assert t[1..][j] == t[j + 1] && t[1..][i] == t[i + 1];
    }
  }

  /** Removing equal heads from lists with equal multisets leaves equal multisets. */
  lemma MultisetTail(r: seq<string>, t: seq<string>)
    requires r != [] && t != [] && r[0] == t[0] && multiset(r) == multiset(t)
    ensures multiset(r[1..]) == multiset(t[1..])
  {
    assert r == [r[0]] + r[1..] && t == [t[0]] + t[1..];
    assert multiset(r[1..]) == multiset(r) - multiset{r[0]};
    assert multiset(t[1..]) == multiset(t) - multiset{t[0]};
  }

  /** A sorted list that is a permutation of a strictly sorted one IS that list:
      a strictly increasing arrangement is recovered by sorting. */
  lemma {:induction false} SortedPermutationUnique(r: seq<string>, t: seq<string>)
    requires Sorted(r) && StrictlySorted(t)
    requires multiset(r) == multiset(t)
    ensures r == t
    decreases |r|
  {
    if r == [] {
      assert |t| == |multiset(t)| == 0;
    } else {
      SortedPermutationHead(r, t);
      MultisetTail(r, t);
      SortedTail(r);
      StrictlySortedTail(t);
      SortedPermutationUnique(r[1..], t[1..]);
      assert r == [r[0]] + r[1..] && t == [t[0]] + t[1..];
    }
  }

  /** Sorting a permutation of a strictly sorted list yields that list. */
  lemma SortRecovers(s: seq<string>, t: seq<string>)
    requires StrictlySorted(t) && multiset(s) == multiset(t)
    ensures SortStrings(s) == t
  {
    SortStringsSorted(s);
    SortedPermutationUnique(SortStrings(s), t);
  }
}
