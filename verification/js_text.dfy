/** The JavaScript string primitives the dump parser relies on: `split` with a
    non-empty string separator, `join`, `trim`, and the character class `\s`
    of regular expressions. */
module JsText {

  /** The characters `trim` removes and `\s` matches: ECMAScript white space
      (tab, vertical tab, form feed, space, no-break space, byte order mark and
      the Unicode space separators) and line terminators. */
  predicate IsSpace(c: char)
  {
    c == '\t' || c == '\n' || c == '\U{000B}' || c == '\U{000C}' || c == '\r' || c == ' '
    || c == '\U{00A0}' || c == '\U{1680}' || ('\U{2000}' <= c <= '\U{200A}')
    || c == '\U{2028}' || c == '\U{2029}' || c == '\U{202F}' || c == '\U{205F}'
    || c == '\U{3000}' || c == '\U{FEFF}'
  }

  /** `sep` occurs in `s` starting at position `k`. */
  predicate OccursAt(s: string, sep: string, k: int)
  {
    0 <= k && k + |sep| <= |s| && s[k..k + |sep|] == sep
  }

  /** `s.includes(sep)`, equivalently `s.indexOf(sep) !== -1`. */
  ghost predicate Contains(s: string, sep: string)
  {
    exists j :: OccursAt(s, sep, j)
  }

  /** `k` is the first occurrence of `sep` in `s`, and `m` is where the next
      occurrence starts, or `|s|` when there is none. */
  predicate Delimits(s: string, sep: string, k: int, m: int)
  {
    && OccursAt(s, sep, k)
    && k + |sep| <= m <= |s|
    && (forall j :: 0 <= j < k ==> !OccursAt(s, sep, j))
    && (forall j :: k + |sep| <= j < m ==> !OccursAt(s, sep, j))
    && (m < |s| ==> OccursAt(s, sep, m))
  }

  lemma OccursAfterDrop(s: string, sep: string, d: nat, j: nat)
    requires d <= |s|
    ensures OccursAt(s[d..], sep, j) <==> OccursAt(s, sep, d + j)
  {
    if d + j + |sep| <= |s| {
      assert s[d..][j..j + |sep|] == s[d + j..d + j + |sep|];
    }
  }

  lemma OccursInPrefix(s: string, sep: string, n: nat, j: nat)
    requires n <= |s|
    ensures OccursAt(s[..n], sep, j) <==> (OccursAt(s, sep, j) && j + |sep| <= n)
  {
    if j + |sep| <= n {
      assert s[..n][j..j + |sep|] == s[j..j + |sep|];
    }
  }

  lemma OccursOneChar(s: string, c: char, j: int)
    ensures OccursAt(s, [c], j) <==> (0 <= j < |s| && s[j] == c)
  {
    if 0 <= j < |s| {
      assert s[j..j + 1] == [s[j]];
    }
  }

  /** A one-character separator occurs exactly when the character is in the string. */
  lemma ContainsChar(s: string, c: char)
    ensures Contains(s, [c]) <==> c in s
  {
    if c in s {
      var j :| 0 <= j < |s| && s[j] == c;
      OccursOneChar(s, c, j);
    } else if Contains(s, [c]) {
      var j :| OccursAt(s, [c], j);
      OccursOneChar(s, c, j);
    }
  }

  /** A character found only at `k` delimits the string there, up to its end. */
  lemma OnlyOccurrence(s: string, c: char, k: int)
    requires 0 <= k < |s| && s[k] == c
    requires forall j :: 0 <= j < |s| && j != k ==> s[j] != c
    ensures Delimits(s, [c], k, |s|)
  {
    forall j | 0 <= j < k ensures !OccursAt(s, [c], j) {
      OccursOneChar(s, c, j);
    }
    forall j | k + 1 <= j < |s| ensures !OccursAt(s, [c], j) {
      OccursOneChar(s, c, j);
    }
    OccursOneChar(s, c, k);
  }

  /** Two words without ' ' joined by one ' ': that ' ' is the only one. */
  lemma WordsDelimit(a: string, b: string)
    requires ' ' !in a && ' ' !in b
    ensures Delimits(a + " " + b, " ", |a|, |a + " " + b|)
  {
    var s := a + " " + b;
    forall j | 0 <= j < |s| && j != |a| ensures s[j] != ' ' {
      if j < |a| {
        assert s[j] == a[j];
      } else {
        assert s[j] == b[j - |a| - 1];
      }
    }
    OnlyOccurrence(s, ' ', |a|);
  }

  lemma SliceOfSuffix(s: string, i: nat, n: nat)
    requires i + n <= |s|
    ensures s[i..][..n] == s[i..i + n]
  {
  }

  /** `s.split(sep)` for a non-empty string separator, read from left to right:
      an occurrence of `sep` ends the current piece and is skipped, so the
      pieces lie between the occurrences found without overlap. */
  function Split(s: string, sep: string): (parts: seq<string>)
    requires |sep| > 0
    ensures |parts| >= 1
    decreases |s|
  {
    if |s| < |sep| then [s]
    else if s[..|sep|] == sep then [""] + Split(s[|sep|..], sep)
    else
      var rest := Split(s[1..], sep);
      [[s[0]] + rest[0]] + rest[1..]
  }

  /** `parts.join(sep)`. */
  function Join(parts: seq<string>, sep: string): string
    requires |parts| >= 1
    decreases |parts|
  {
    if |parts| == 1 then parts[0] else parts[0] + sep + Join(parts[1..], sep)
  }

  /** Number of non-overlapping occurrences of `sep` in `s`, counted from the left. */
  function Count(s: string, sep: string): nat
    requires |sep| > 0
    decreases |s|
  {
    if |s| < |sep| then 0
    else if s[..|sep|] == sep then 1 + Count(s[|sep|..], sep)
    else Count(s[1..], sep)
  }

  lemma StartsAt(s: string, sep: string)
    requires |sep| <= |s|
    ensures OccursAt(s, sep, 0) <==> s[..|sep|] == sep
  {
    assert s[0..|sep|] == s[..|sep|];
  }

  /** Without an occurrence of `sep`, the split is the whole string. */
  lemma {:induction false} SplitWithout(s: string, sep: string)
    requires |sep| > 0 && !Contains(s, sep)
    ensures Split(s, sep) == [s]
    decreases |s|
  {
    if |s| >= |sep| {
      StartsAt(s, sep);
      assert !OccursAt(s, sep, 0);
      assert !Contains(s[1..], sep) by {
        forall j ensures !OccursAt(s[1..], sep, j) {
          if j >= 0 {
            OccursAfterDrop(s, sep, 1, j);
            assert !OccursAt(s, sep, 1 + j);
          }
        }
      }
      SplitWithout(s[1..], sep);
      assert [s[0]] + s[1..] == s;
    }
  }

  /** One step of `split` at a position where `sep` does not start. */
  lemma SplitStep(s: string, sep: string)
    requires |sep| > 0 && !OccursAt(s, sep, 0) && |s| >= |sep|
    ensures Split(s, sep) == [[s[0]] + Split(s[1..], sep)[0]] + Split(s[1..], sep)[1..]
  {
    StartsAt(s, sep);
  }

  /** With a first occurrence at `k`, the split is the text before it followed by
      the split of the text after it. */
  lemma {:induction false} SplitAtFirst(s: string, sep: string, k: nat)
    requires |sep| > 0 && OccursAt(s, sep, k)
    requires forall j :: 0 <= j < k ==> !OccursAt(s, sep, j)
    ensures Split(s, sep) == [s[..k]] + Split(s[k + |sep|..], sep)
    decreases k
  {
    if k == 0 {
      StartsAt(s, sep);
    } else {
      var t := s[1..];
      assert !OccursAt(s, sep, 0);
      SplitStep(s, sep);
      OccursAfterDrop(s, sep, 1, k - 1);
      forall j | 0 <= j < k - 1 ensures !OccursAt(t, sep, j) {
        OccursAfterDrop(s, sep, 1, j);
      }
      SplitAtFirst(t, sep, k - 1);
      ConsFirst(s, k, |sep|);
    }
  }

  lemma ConsFirst(s: string, k: nat, n: nat)
    requires 0 < k && k + n <= |s|
    ensures [s[0]] + s[1..][..k - 1] == s[..k]
    ensures s[1..][k - 1 + n..] == s[k + n..]
  {
  }

  /** `s.split(sep)` has a single piece exactly when `sep` does not occur. */
  lemma SplitSingle(s: string, sep: string)
    requires |sep| > 0
    ensures |Split(s, sep)| == 1 <==> !Contains(s, sep)
    ensures !Contains(s, sep) ==> Split(s, sep) == [s]
  {
    if Contains(s, sep) {
      var k := FirstOccurrence(s, sep);
      SplitAtFirst(s, sep, k);
    } else {
      SplitWithout(s, sep);
    }
  }

  /** The position of the first occurrence, when there is one. */
  lemma FirstOccurrence(s: string, sep: string) returns (k: nat)
    requires Contains(s, sep)
    ensures OccursAt(s, sep, k)
    ensures forall j :: 0 <= j < k ==> !OccursAt(s, sep, j)
  {
    var n :| OccursAt(s, sep, n);
    k := FirstOccurrenceUpTo(s, sep, n);
  }

  lemma {:induction false} FirstOccurrenceUpTo(s: string, sep: string, n: nat) returns (k: nat)
    requires OccursAt(s, sep, n)
    ensures k <= n && OccursAt(s, sep, k)
    ensures forall j :: 0 <= j < k ==> !OccursAt(s, sep, j)
    decreases n
  {
    if j :| 0 <= j < n && OccursAt(s, sep, j) {
      k := FirstOccurrenceUpTo(s, sep, j);
    } else {
      k := n;
    }
  }

  /** When `sep` occurs, its first two occurrences delimit some `k` and `m`. */
  lemma DelimitsExist(s: string, sep: string) returns (k: nat, m: nat)
    requires |sep| > 0 && Contains(s, sep)
    ensures Delimits(s, sep, k, m)
  {
    k := FirstOccurrence(s, sep);
    var d := k + |sep|;
    var rest := s[d..];
    if Contains(rest, sep) {
      var n := FirstOccurrence(rest, sep);
      m := d + n;
      OccursAfterDrop(s, sep, d, n);
      forall j | d <= j < m ensures !OccursAt(s, sep, j) {
        OccursAfterDrop(s, sep, d, j - d);
      }
    } else {
      m := |s|;
      forall j | d <= j < m ensures !OccursAt(s, sep, j) {
        OccursAfterDrop(s, sep, d, j - d);
      }
    }
  }

  /** The first piece of `s.split(sep)` is the text before the first occurrence of
      `sep`, and the second piece is the text between the first and the second
      occurrence (or up to the end). */
  lemma SplitFirstTwo(s: string, sep: string, k: int, m: int)
    requires |sep| > 0 && Delimits(s, sep, k, m)
    ensures |Split(s, sep)| >= 2
    ensures Split(s, sep)[0] == s[..k]
    ensures Split(s, sep)[1] == s[k + |sep|..m]
  {
    SplitAtFirst(s, sep, k);
    ConsParts(Split(s, sep), s[..k], Split(s[k + |sep|..], sep));
    SecondPiece(s, sep, k, m);
  }

  /** After the first occurrence, the split starts with the text up to the next one. */
  lemma SecondPiece(s: string, sep: string, k: int, m: int)
    requires |sep| > 0 && Delimits(s, sep, k, m)
    ensures Split(s[k + |sep|..], sep)[0] == s[k + |sep|..m]
  {
    if m < |s| {
      SecondPieceBeforeNext(s, sep, k, m);
    } else {
      SecondPieceToEnd(s, sep, k, m);
    }
  }

  lemma SecondPieceBeforeNext(s: string, sep: string, k: nat, m: nat)
    requires |sep| > 0 && k + |sep| <= m < |s| && OccursAt(s, sep, m)
    requires forall j :: k + |sep| <= j < m ==> !OccursAt(s, sep, j)
    ensures Split(s[k + |sep|..], sep)[0] == s[k + |sep|..m]
  {
    var d := k + |sep|;
    SplitUpToNext(s, sep, d, m);
    assert Split(s[d..], sep)[0] == s[d..m];
  }

  lemma SecondPieceToEnd(s: string, sep: string, k: nat, m: nat)
    requires |sep| > 0 && k + |sep| <= m == |s|
    requires forall j :: k + |sep| <= j < m ==> !OccursAt(s, sep, j)
    ensures Split(s[k + |sep|..], sep)[0] == s[k + |sep|..m]
  {
    var d := k + |sep|;
    SplitAfterLast(s, sep, d, m);
    assert Split(s[d..], sep)[0] == s[d..m];
  }

  lemma ConsParts(parts: seq<string>, first: string, tail: seq<string>)
    requires |tail| >= 1 && parts == [first] + tail
    ensures |parts| >= 2 && parts[0] == first && parts[1] == tail[0]
  {
  }

  lemma SplitUpToNext(s: string, sep: string, d: nat, m: nat)
    requires |sep| > 0 && d <= m && OccursAt(s, sep, m)
    requires forall j :: d <= j < m ==> !OccursAt(s, sep, j)
    ensures Split(s[d..], sep)[0] == s[d..m]
  {
    var rest := s[d..];
    OccursAfterDrop(s, sep, d, m - d);
    forall j | 0 <= j < m - d ensures !OccursAt(rest, sep, j) {
      OccursAfterDrop(s, sep, d, j);
    }
    SplitAtFirst(rest, sep, m - d);
    SliceOfSuffix(s, d, m - d);
  }

  lemma SplitAfterLast(s: string, sep: string, d: nat, m: nat)
    requires |sep| > 0 && d <= m == |s|
    requires forall j :: d <= j < m ==> !OccursAt(s, sep, j)
    ensures Split(s[d..], sep)[0] == s[d..m]
  {
    var rest := s[d..];
    assert !Contains(rest, sep) by {
      forall j ensures !OccursAt(rest, sep, j) {
        if j >= 0 {
          OccursAfterDrop(s, sep, d, j);
        }
      }
    }
    SplitWithout(rest, sep);
    assert s[d..|s|] == rest;
  }

  /** The first piece of a split is a prefix of the string. */
  lemma {:induction false} SplitHeadIsPrefix(s: string, sep: string)
    requires |sep| > 0
    ensures |Split(s, sep)[0]| <= |s| && Split(s, sep)[0] == s[..|Split(s, sep)[0]|]
    decreases |s|
  {
    if |s| >= |sep| && s[..|sep|] != sep {
      var rest := Split(s[1..], sep);
      assert Split(s, sep)[0] == [s[0]] + rest[0];
      SplitHeadIsPrefix(s[1..], sep);
      ConsFirst(s, |rest[0]| + 1, 0);
    }
  }

  /** No piece of a split contains the separator. */
  lemma {:induction false} SplitPiecesFree(s: string, sep: string)
    requires |sep| > 0
    ensures forall i :: 0 <= i < |Split(s, sep)| ==> !Contains(Split(s, sep)[i], sep)
    decreases |s|
  {
    var parts := Split(s, sep);
    if |s| < |sep| {
      assert !Contains(s, sep);
    } else if s[..|sep|] == sep {
      SplitPiecesFree(s[|sep|..], sep);
      assert parts[1..] == Split(s[|sep|..], sep);
      assert !Contains(parts[0], sep);
    } else {
      var rest := Split(s[1..], sep);
      SplitPiecesFree(s[1..], sep);
      SplitHeadIsPrefix(s[1..], sep);
      var head := [s[0]] + rest[0];
      assert head == s[..|head|];
      forall j ensures !OccursAt(head, sep, j) {
        if j == 0 {
          OccursInPrefix(s, sep, |head|, 0);
          StartsAt(s, sep);
        } else if j > 0 {
          OccursAfterDrop(head, sep, 1, j - 1);
          assert head[1..] == rest[0];
        }
      }
      forall i | 1 <= i < |parts| ensures !Contains(parts[i], sep) {
        assert parts[i] == rest[i];
      }
    }
  }

  lemma JoinConsHead(c: char, parts: seq<string>, sep: string)
    requires |parts| >= 1
    ensures Join([[c] + parts[0]] + parts[1..], sep) == [c] + Join(parts, sep)
  {
    var q := [[c] + parts[0]] + parts[1..];
    if |parts| > 1 {
      assert q[1..] == parts[1..];
    }
  }

  lemma JoinEmptyHead(parts: seq<string>, sep: string)
    requires |parts| >= 1
    ensures Join([""] + parts, sep) == sep + Join(parts, sep)
  {
    assert ([""] + parts)[1..] == parts;
  }

  /** Joining the pieces of a split with the same separator gives back the string. */
  lemma {:induction false} SplitJoin(s: string, sep: string)
    requires |sep| > 0
    ensures Join(Split(s, sep), sep) == s
    decreases |s|
  {
    if |s| >= |sep| {
      if s[..|sep|] == sep {
        var rest := Split(s[|sep|..], sep);
        assert Split(s, sep) == [""] + rest;
        SplitJoin(s[|sep|..], sep);
        JoinEmptyHead(rest, sep);
        assert s == s[..|sep|] + s[|sep|..];
      } else {
        var rest := Split(s[1..], sep);
        assert Split(s, sep) == [[s[0]] + rest[0]] + rest[1..];
        SplitJoin(s[1..], sep);
        JoinConsHead(s[0], rest, sep);
        assert s == [s[0]] + s[1..];
      }
    }
  }

  /** `s.split(sep)` has one piece more than there are occurrences of `sep`. */
  lemma {:induction false} SplitCount(s: string, sep: string)
    requires |sep| > 0
    ensures |Split(s, sep)| == Count(s, sep) + 1
    decreases |s|
  {
    if |s| >= |sep| {
      if s[..|sep|] == sep {
        SplitCount(s[|sep|..], sep);
      } else {
        SplitCount(s[1..], sep);
      }
    }
  }

  /** `s.trimStart()`. */
  function TrimStart(s: string): (r: string)
    ensures |r| <= |s| && r == s[|s| - |r|..]
    ensures forall i :: 0 <= i < |s| - |r| ==> IsSpace(s[i])
    ensures r != [] ==> !IsSpace(r[0])
    decreases |s|
  {
    if s != [] && IsSpace(s[0]) then TrimStart(s[1..]) else s
  }

  /** White space in front of text that does not start with white space is
      removed entirely. */
  lemma {:induction false} TrimStartOfSpaces(w: string, b: string)
    requires forall i :: 0 <= i < |w| ==> IsSpace(w[i])
    requires b == [] || !IsSpace(b[0])
    ensures TrimStart(w + b) == b
    decreases |w|
  {
    if w == [] {
      assert w + b == b;
    } else {
      assert (w + b)[1..] == w[1..] + b;
      TrimStartOfSpaces(w[1..], b);
    }
  }

  /** The visible last character of a string survives `trimStart`. */
  lemma VisibleEndSurvives(x: string)
    requires x != [] && !IsSpace(x[|x| - 1])
    ensures TrimStart(x) != [] && TrimStart(x)[|TrimStart(x)| - 1] == x[|x| - 1]
  {
    var r := TrimStart(x);
    assert |x| - |r| <= |x| - 1 by {
      assert !IsSpace(x[|x| - 1]);
    }
  }

  /** `trimStart` stops inside `x` when `x` ends with a visible character. */
  lemma {:induction false} TrimStartOfConcat(x: string, y: string)
    requires x != [] && !IsSpace(x[|x| - 1])
    ensures TrimStart(x + y) == TrimStart(x) + y
    decreases |x|
  {
    if IsSpace(x[0]) {
      assert (x + y)[1..] == x[1..] + y;
      TrimStartOfConcat(x[1..], y);
    }
  }

  /** `s.trimEnd()`. */
  function TrimEnd(s: string): (r: string)
    ensures |r| <= |s| && r == s[..|r|]
    ensures forall i :: |r| <= i < |s| ==> IsSpace(s[i])
    ensures r != [] ==> !IsSpace(r[|r| - 1])
    decreases |s|
  {
    if s != [] && IsSpace(s[|s| - 1]) then TrimEnd(s[..|s| - 1]) else s
  }

  /** `s.trim()`: the result neither starts nor ends with white space. */
  function Trim(s: string): (r: string)
    ensures r != [] ==> !IsSpace(r[0]) && !IsSpace(r[|r| - 1])
  {
    TrimEnd(TrimStart(s))
  }

  /** `trim` cuts only white space off the two ends: the result is a slice of
      the input with white space only before and after it. */
  lemma TrimSlice(s: string) returns (i: nat)
    ensures i + |Trim(s)| <= |s| && Trim(s) == s[i..i + |Trim(s)|]
    ensures forall j :: 0 <= j < i ==> IsSpace(s[j])
    ensures forall j :: i + |Trim(s)| <= j < |s| ==> IsSpace(s[j])
  {
    var t := TrimStart(s);
    i := |s| - |t|;
    SliceOfSuffix(s, i, |TrimEnd(t)|);
    TrimEndOfSuffix(s, i);
  }

  lemma TrimEndOfSuffix(s: string, i: nat)
    requires i <= |s|
    ensures forall j :: i + |TrimEnd(s[i..])| <= j < |s| ==> IsSpace(s[j])
  {
    var t := s[i..];
    forall j | i + |TrimEnd(t)| <= j < |s| ensures IsSpace(s[j]) {
      assert s[j] == t[j - i];
    }
  }

  /** A string without white space at either end is its own trim. */
  lemma TrimmedIsFixed(s: string)
    requires s != [] ==> !IsSpace(s[0]) && !IsSpace(s[|s| - 1])
    ensures Trim(s) == s
  {
  }

  /** The characters of `s` that are not white space, in order. */
  function Visible(s: string): string
    decreases |s|
  {
    if s == [] then [] else (if IsSpace(s[0]) then [] else [s[0]]) + Visible(s[1..])
  }

  lemma {:induction false} VisibleConcat(a: string, b: string)
    ensures Visible(a + b) == Visible(a) + Visible(b)
    decreases |a|
  {
    if a != [] {
      var h := if IsSpace(a[0]) then [] else [a[0]];
      assert (a + b)[0] == a[0];
      assert (a + b)[1..] == a[1..] + b;
      VisibleConcat(a[1..], b);
      calc {
        Visible(a + b);
        h + Visible(a[1..] + b);
        h + (Visible(a[1..]) + Visible(b));
        (h + Visible(a[1..])) + Visible(b);
        Visible(a) + Visible(b);
      }
    } else {
      assert a + b == b;
    }
  }

  lemma {:induction false} VisibleOfSpaces(s: string)
    requires forall j :: 0 <= j < |s| ==> IsSpace(s[j])
    ensures Visible(s) == []
    decreases |s|
  {
    if s != [] {
      VisibleOfSpaces(s[1..]);
    }
  }

  lemma {:induction false} TrimStartKeepsVisible(s: string)
    ensures Visible(TrimStart(s)) == Visible(s)
    decreases |s|
  {
    if s != [] && IsSpace(s[0]) {
      TrimStartKeepsVisible(s[1..]);
    }
  }

  lemma {:induction false} TrimEndKeepsVisible(s: string)
    ensures Visible(TrimEnd(s)) == Visible(s)
    decreases |s|
  {
    if s != [] && IsSpace(s[|s| - 1]) {
      var init := s[..|s| - 1];
      TrimEndKeepsVisible(init);
      assert s == init + [s[|s| - 1]];
      VisibleConcat(init, [s[|s| - 1]]);
      assert Visible([s[|s| - 1]]) == [];
    }
  }

  /** Dropping white space from both ends keeps every other character. */
  lemma TrimKeepsVisible(s: string)
    ensures Visible(Trim(s)) == Visible(s)
  {
    TrimStartKeepsVisible(s);
    TrimEndKeepsVisible(TrimStart(s));
  }
}
