/** String operations the rule engine relies on, with Python's meaning:
    `str.strip()`, `str.split(sep)`, `sep.join(parts)` and the ordering
    `sorted` uses on strings (code point by code point). */
module Text {

  /** The characters Python's `str.isspace()` accepts, i.e. those `strip()` removes. */
  predicate IsSpace(c: char) {
    ('\t' <= c <= '\r')            // \t \n \x0b \x0c \r
    || ('\U{1C}' <= c <= ' ')      // \x1c .. \x1f and the space
    || c == '\U{85}' || c == '\U{A0}' || c == '\U{1680}'
    || ('\U{2000}' <= c <= '\U{200A}')
    || c == '\U{2028}' || c == '\U{2029}' || c == '\U{202F}' || c == '\U{205F}'
    || c == '\U{3000}'
  }

  predicate AllSpace(s: string) {
    forall i :: 0 <= i < |s| ==> IsSpace(s[i])
  }

  /** A string with no surrounding white space: what `strip()` leaves. */
  predicate Stripped(s: string) {
    s == [] || (!IsSpace(s[0]) && !IsSpace(s[|s| - 1]))
  }

  function TrimStart(s: string): string {
    if s != [] && IsSpace(s[0]) then TrimStart(s[1..]) else s
  }

  function TrimEnd(s: string): string {
    if s != [] && IsSpace(s[|s| - 1]) then TrimEnd(s[..|s| - 1]) else s
  }

  /** Python's `s.strip()`. */
  function Strip(s: string): string {
    TrimEnd(TrimStart(s))
  }

  lemma {:induction false} TrimStartSkips(w: string, s: string)
    requires AllSpace(w)
    requires s == [] || !IsSpace(s[0])
    ensures TrimStart(w + s) == s
  {
    if w != [] {
      assert (w + s)[1..] == w[1..] + s;
      TrimStartSkips(w[1..], s);
    } else {
      assert w + s == s;
    }
  }

  lemma {:induction false} TrimEndSkips(s: string, w: string)
    requires AllSpace(w)
    requires s == [] || !IsSpace(s[|s| - 1])
    ensures TrimEnd(s + w) == s
  {
    if w != [] {
      var n := |s + w|;
      assert (s + w)[..n - 1] == s + w[..|w| - 1];
      TrimEndSkips(s, w[..|w| - 1]);
    } else {
      assert s + w == s;
    }
  }

  lemma {:induction false} TrimStartLeavesNoSpace(s: string)
    ensures var t := TrimStart(s); t == [] || !IsSpace(t[0])
  {
    if s != [] && IsSpace(s[0]) {
      TrimStartLeavesNoSpace(s[1..]);
    }
  }

  lemma {:induction false} TrimEndKeepsPrefix(s: string)
    ensures var t := TrimEnd(s); |t| <= |s| && t == s[..|t|] && (t == [] || !IsSpace(t[|t| - 1]))
  {
    if s != [] && IsSpace(s[|s| - 1]) {
      TrimEndKeepsPrefix(s[..|s| - 1]);
    }
  }

  /** `strip()` leaves no white space at either end. */
  lemma StripIsStripped(s: string)
    ensures Stripped(Strip(s))
  {
    TrimStartLeavesNoSpace(s);
    TrimEndKeepsPrefix(TrimStart(s));
  }

  /** Stripping a non-empty stripped string padded with white space gives it back. */
  lemma StripPadded(w1: string, s: string, w2: string)
    requires AllSpace(w1) && AllSpace(w2)
    requires s != [] && Stripped(s)
    ensures Strip(w1 + s + w2) == s
  {
    assert w1 + s + w2 == w1 + (s + w2);
    TrimStartSkips(w1, s + w2);
    TrimEndSkips(s, w2);
  }

  /** `sep` occurs in `s` starting at position `i`. */
  predicate OccursAt(s: string, sep: string, i: nat) {
    i + |sep| <= |s| && s[i..i + |sep|] == sep
  }

  predicate Contains(s: string, sep: string) {
    exists i: nat :: i <= |s| && OccursAt(s, sep, i)
  }

  /** Python's `s.split(sep)` for a non-empty `sep`, with `piece` the part of the
      current piece already read: pieces are cut at the leftmost occurrence of
      `sep`, occurrences do not overlap, and there is one more piece than cuts. */
  function SplitFrom(s: string, sep: string, piece: string): (parts: seq<string>)
    requires sep != []
    ensures |parts| >= 1
    decreases |s|
  {
    if |s| < |sep| then [piece + s]
    else if s[..|sep|] == sep then [piece] + SplitFrom(s[|sep|..], sep, [])
    else SplitFrom(s[1..], sep, piece + [s[0]])
  }

  function Split(s: string, sep: string): seq<string>
    requires sep != []
  {
    SplitFrom(s, sep, [])
  }

  /** Python's `sep.join(parts)`. */
  function Join(sep: string, parts: seq<string>): string {
    if |parts| == 0 then []
    else if |parts| == 1 then parts[0]
    else parts[0] + sep + Join(sep, parts[1..])
  }

  lemma {:induction false} JoinSplitFrom(s: string, sep: string, piece: string)
    requires sep != []
    ensures Join(sep, SplitFrom(s, sep, piece)) == piece + s
    decreases |s|
  {
    if |s| < |sep| {
    } else if s[..|sep|] == sep {
      var rest := SplitFrom(s[|sep|..], sep, []);
      JoinSplitFrom(s[|sep|..], sep, []);
      assert [piece] + rest == [piece] + rest;
      assert ([piece] + rest)[1..] == rest;
      assert s == sep + s[|sep|..];
    } else {
      JoinSplitFrom(s[1..], sep, piece + [s[0]]);
      assert s == [s[0]] + s[1..];
    }
  }

  /** Joining the pieces of a split with the same separator restores the string. */
  lemma JoinSplit(s: string, sep: string)
    requires sep != []
    ensures Join(sep, Split(s, sep)) == s
  {
    JoinSplitFrom(s, sep, []);
  }

  /** Reading past a prefix in which `sep` does not start only extends the current piece. */
  lemma {:induction false} SplitSkips(p: string, s: string, sep: string, piece: string)
    requires sep != []
    requires forall i :: 0 <= i < |p| ==> !OccursAt(p + s, sep, i)
    ensures SplitFrom(p + s, sep, piece) == SplitFrom(s, sep, piece + p)
    decreases |p|
  {
    if p != [] {
      var t := p + s;
      assert !OccursAt(t, sep, 0);
      if |t| < |sep| {
        // then no occurrence is possible in s either and both sides are one piece
        assert |s| < |sep|;
        assert piece + t == piece + p + s;
      } else {
        assert t[..|sep|] != sep;
        assert t[1..] == p[1..] + s;
        forall i | 0 <= i < |p[1..]|
          ensures !OccursAt(p[1..] + s, sep, i)
        {
          assert !OccursAt(t, sep, i + 1);
          if i + |sep| <= |p[1..] + s| {
            assert (p[1..] + s)[i..i + |sep|] == t[i + 1..i + 1 + |sep|];
          }
        }
        SplitSkips(p[1..], s, sep, piece + [p[0]]);
        assert piece + [p[0]] + p[1..] == piece + p;
      }
    } else {
      assert p + s == s;
      assert piece + p == piece;
    }
  }

  /** The first cut falls right after `a` when `sep` does not start earlier. */
  lemma SplitCutsAfter(a: string, s: string, sep: string, piece: string)
    requires sep != []
    requires forall i :: 0 <= i < |a| ==> !OccursAt(a + sep + s, sep, i)
    ensures SplitFrom(a + sep + s, sep, piece) == [piece + a] + SplitFrom(s, sep, [])
  {
    assert a + sep + s == a + (sep + s);
    SplitSkips(a, sep + s, sep, piece);
    assert (sep + s)[..|sep|] == sep;
    assert (sep + s)[|sep|..] == s;
  }

  /** A string in which `sep` never occurs is a single piece. */
  lemma SplitWhole(s: string, sep: string, piece: string)
    requires sep != []
    requires !Contains(s, sep)
    ensures SplitFrom(s, sep, piece) == [piece + s]
  {
    assert s + [] == s;
    forall i | 0 <= i < |s| ensures !OccursAt(s + [], sep, i) {
      assert !OccursAt(s, sep, i);
    }
    SplitSkips(s, [], sep, piece);
    assert SplitFrom([], sep, piece + s) == [piece + s + []];
    assert piece + s + [] == piece + s;
  }

  /** If `x` ends in a space that `sep` does not contain, every occurrence of
      `sep` in `x + y` that starts inside `x` lies inside `x`. */
  lemma NoOccurrenceAcrossSpace(x0: string, y: string, sep: string)
    requires sep != [] && ' ' !in sep
    requires !Contains(x0, sep)
    ensures forall i :: 0 <= i <= |x0| ==> !OccursAt(x0 + " " + y, sep, i)
  {
    var t := x0 + " " + y;
    forall i | 0 <= i <= |x0| ensures !OccursAt(t, sep, i) {
      if i + |sep| <= |t| {
        if i + |sep| <= |x0| {
          assert t[i..i + |sep|] == x0[i..i + |sep|];
          assert !OccursAt(x0, sep, i);
        } else {
          assert t[i..i + |sep|][|x0| - i] == t[|x0|] == ' ';
          assert sep[|x0| - i] != ' ';
        }
      }
    }
  }

  /** Gluing two strings at a space creates no new occurrence of a separator
      without spaces. */
  lemma NotContainsConcat(x: string, y: string, sep: string)
    requires sep != [] && ' ' !in sep
    requires !Contains(x, sep) && !Contains(y, sep)
    requires (x != [] && x[|x| - 1] == ' ') || (y != [] && y[0] == ' ')
    ensures !Contains(x + y, sep)
  {
    var t := x + y;
    forall i: nat | i <= |t| ensures !OccursAt(t, sep, i) {
      if i + |sep| <= |t| {
        if i + |sep| <= |x| {
          assert t[i..i + |sep|] == x[i..i + |sep|];
          assert !OccursAt(x, sep, i);
        } else if i >= |x| {
          assert t[i..i + |sep|] == y[i - |x|..i - |x| + |sep|];
          assert !OccursAt(y, sep, i - |x|);
        } else if x != [] && x[|x| - 1] == ' ' {
          assert t[i..i + |sep|][|x| - 1 - i] == t[|x| - 1] == ' ';
          assert sep[|x| - 1 - i] != ' ';
        } else {
          assert t[i..i + |sep|][|x| - i] == t[|x|] == ' ';
          assert sep[|x| - i] != ' ';
        }
      }
    }
  }

  /** An occurrence of `sep` cuts the string into at least two pieces. */
  lemma {:induction false} SplitCutsAt(s: string, sep: string, piece: string, i: nat)
    requires sep != []
    requires OccursAt(s, sep, i)
    ensures |SplitFrom(s, sep, piece)| >= 2
    decreases |s|
  {
    assert |s| >= |sep|;
    if s[..|sep|] != sep {
      assert i != 0;
      assert s[1..][i - 1..i - 1 + |sep|] == s[i..i + |sep|];
      SplitCutsAt(s[1..], sep, piece + [s[0]], i - 1);
    }
  }

  /** A separator whose first character never appears does not occur. */
  lemma AbsentFirstChar(s: string, sep: string)
    requires sep != [] && sep[0] !in s
    ensures !Contains(s, sep)
  {
    forall i: nat | i <= |s| ensures !OccursAt(s, sep, i) {
      if i + |sep| <= |s| {
        assert s[i..i + |sep|][0] == s[i];
      }
    }
  }

  /** A one-character text that does not occur is a character that does not appear. */
  lemma AbsentChar(s: string, c: char)
    requires !Contains(s, [c])
    ensures c !in s
  {
    forall i | 0 <= i < |s| ensures s[i] != c {
      assert !OccursAt(s, [c], i);
      assert s[i..i + 1] == [s[i]];
    }
  }

  /** Joining pieces free of `c` with `c` and splitting on `c` gives the pieces back. */
  lemma {:induction false} SplitJoinedOnChar(parts: seq<string>, c: char, piece: string)
    requires |parts| >= 1
    requires forall k :: 0 <= k < |parts| ==> c !in parts[k]
    ensures SplitFrom(Join([c], parts), [c], piece) == [piece + parts[0]] + parts[1..]
    ensures piece == [] ==> SplitFrom(Join([c], parts), [c], piece) == parts
    decreases |parts|
  {
    assert [] + parts[0] == parts[0];
    assert [parts[0]] + parts[1..] == parts;
    if |parts| == 1 {
      AbsentFirstChar(parts[0], [c]);
      SplitWhole(parts[0], [c], piece);
    } else {
      var a, rest := parts[0], Join([c], parts[1..]);
      assert Join([c], parts) == a + [c] + rest;
      forall i | 0 <= i < |a| ensures !OccursAt(a + [c] + rest, [c], i) {
        assert (a + [c] + rest)[i..i + 1] == [a[i]];
      }
      SplitCutsAfter(a, rest, [c], piece);
      SplitJoinedOnChar(parts[1..], c, []);
      var tail := parts[1..];
      assert [] + tail[0] == tail[0];
      assert [tail[0]] + tail[1..] == tail;
      assert parts[1..][1..] == tail[1..];
    }
  }

  /** A join of non-empty pieces starts with the first piece's first character
      and ends with the last piece's last character. */
  lemma {:induction false} JoinEnds(sep: string, parts: seq<string>)
    requires |parts| >= 1
    requires forall k :: 0 <= k < |parts| ==> parts[k] != []
    ensures var j := Join(sep, parts);
            var last := parts[|parts| - 1];
            j != [] && j[0] == parts[0][0] && j[|j| - 1] == last[|last| - 1]
    decreases |parts|
  {
    if |parts| > 1 {
      JoinEnds(sep, parts[1..]);
    }
  }

  /** The first and last characters of a three-part concatenation. */
  lemma ConcatEnds(a: string, b: string, c: string)
    requires a != [] && b + c != []
    ensures a + b + c == a + (b + c)
    ensures (a + b + c)[0] == a[0] && (a + b + c)[|a + b + c| - 1] == (b + c)[|b + c| - 1]
  {
  }

  /** Joining pieces free of `pat` with a space-padded separator creates no
      occurrence of `pat`, provided `pat` has no space. */
  lemma {:induction false} JoinAvoids(mid: string, parts: seq<string>, pat: string)
    requires pat != [] && ' ' !in pat
    requires !Contains(mid, pat)
    requires forall k :: 0 <= k < |parts| ==> !Contains(parts[k], pat)
    ensures !Contains(Join(" " + mid + " ", parts), pat)
    decreases |parts|
  {
    if |parts| == 0 {
      AbsentFirstChar([], pat);
    } else if |parts| > 1 {
      var rest := Join(" " + mid + " ", parts[1..]);
      JoinAvoids(mid, parts[1..], pat);
      AbsentFirstChar(" ", pat);
      var x1 := parts[0] + " ";
      NotContainsConcat(parts[0], " ", pat);
      NotContainsConcat(x1, mid, pat);
      var x2 := x1 + mid;
      if x2 != [] {
        assert (x2 + " ")[|x2 + " "| - 1] == ' ';
      }
      NotContainsConcat(x2, " ", pat);
      NotContainsConcat(x2 + " ", rest, pat);
      assert Join(" " + mid + " ", parts) == x2 + " " + rest;
    }
  }

  // ---------------------------------------------------------------------
  // Python's ordering of strings, and the sorted enumeration of a set of
  // strings that `sorted(...)` produces.
  // ---------------------------------------------------------------------

  /** `a < b` on Python strings: code point by code point, a proper prefix first. */
  predicate StrLess(a: string, b: string) {
    if a == [] then b != []
    else b != [] && (a[0] < b[0] || (a[0] == b[0] && StrLess(a[1..], b[1..])))
  }

  lemma {:induction false} StrLessIrreflexive(a: string)
    ensures !StrLess(a, a)
  {
    if a != [] {
      StrLessIrreflexive(a[1..]);
    }
  }

  lemma {:induction false} StrLessTransitive(a: string, b: string, c: string)
    requires StrLess(a, b) && StrLess(b, c)
    ensures StrLess(a, c)
  {
    if a != [] && a[0] == b[0] && b[0] == c[0] {
      StrLessTransitive(a[1..], b[1..], c[1..]);
    }
  }

  lemma {:induction false} StrLessTotal(a: string, b: string)
    ensures a == b || StrLess(a, b) || StrLess(b, a)
  {
    if a != [] && b != [] && a[0] == b[0] {
      StrLessTotal(a[1..], b[1..]);
      if a[1..] == b[1..] {
        assert a == [a[0]] + a[1..] && b == [b[0]] + b[1..];
      }
    }
  }

  predicate IsLeast(m: string, A: set<string>) {
    m in A && forall x :: x in A ==> !StrLess(x, m)
  }

  lemma {:induction false} LeastExists(A: set<string>)
    requires A != {}
    ensures exists m :: IsLeast(m, A)
    decreases |A|
  {
    var x :| x in A;
    if A - {x} == {} {
      assert A == {x};
      StrLessIrreflexive(x);
      assert IsLeast(x, A);
    } else {
      LeastExists(A - {x});
      var m :| IsLeast(m, A - {x});
      if StrLess(x, m) {
        forall y | y in A ensures !StrLess(y, x) {
          if y == x {
            StrLessIrreflexive(x);
          } else if StrLess(y, x) {
            StrLessTransitive(y, x, m);
            assert false;
          }
        }
        assert IsLeast(x, A);
      } else {
        assert IsLeast(m, A);
      }
    }
  }

  lemma LeastUnique(A: set<string>)
    ensures forall m, n :: IsLeast(m, A) && IsLeast(n, A) ==> m == n
  {
    forall m, n | IsLeast(m, A) && IsLeast(n, A) ensures m == n {
      StrLessTotal(m, n);
    }
  }

  /** The least string of a non-empty set. */
  function Least(A: set<string>): (m: string)
    requires A != {}
    ensures IsLeast(m, A)
  {
    LeastExists(A);
    LeastUnique(A);
    var m :| m in A && IsLeast(m, A);
    m
  }

  /** The strings of `A` in increasing order: Python's `sorted(A)`. */
  function Enumerate(A: set<string>): (s: seq<string>)
    ensures |s| == |A|
    ensures forall x :: x in s <==> x in A
    ensures forall i, j :: 0 <= i < j < |s| ==> StrLess(s[i], s[j])
    decreases |A|
  {
    if A == {} then []
    else
      var m := Least(A);
      var rest := Enumerate(A - {m});
      PrependLeast(m, A, rest);
      [m] + rest
  }

  /** The least string followed by the others in increasing order lists the
      whole set in increasing order. */
  lemma PrependLeast(m: string, A: set<string>, rest: seq<string>)
    requires IsLeast(m, A)
    requires |rest| == |A - {m}|
    requires forall x :: x in rest <==> x in A - {m}
    requires forall i, j :: 0 <= i < j < |rest| ==> StrLess(rest[i], rest[j])
    ensures |[m] + rest| == |A|
    ensures forall x :: x in [m] + rest <==> x in A
    ensures forall i, j :: 0 <= i < j < |[m] + rest| ==> StrLess(([m] + rest)[i], ([m] + rest)[j])
  {
    forall x | x in rest ensures StrLess(m, x) {
      StrLessTotal(m, x);
    }
    var s := [m] + rest;
    forall i, j | 0 <= i < j < |s| ensures StrLess(s[i], s[j]) {
      if i == 0 {
        assert s[j] == rest[j - 1] && rest[j - 1] in rest;
      } else {
        assert s[i] == rest[i - 1] && s[j] == rest[j - 1];
      }
    }
  }
}
