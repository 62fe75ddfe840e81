/**
 * The JavaScript string operations the snippet editor relies on, over
 * `seq<char>`: `String.prototype.split` with a one-character separator,
 * `Array.prototype.join` with a one-character separator and
 * `String.prototype.trim`.
 */
module Strings {

  /** Number of occurrences of `c` in `s`. */
  function Count(s: string, c: char): (n: nat)
    ensures n <= |s|
    ensures n == 0 <==> c !in s
  {
    if s == [] then 0 else (if s[0] == c then 1 else 0) + Count(s[1..], c)
  }

  lemma {:induction false} CountAppend(a: string, b: string, c: char)
    ensures Count(a + b, c) == Count(a, c) + Count(b, c)
  {
    if a == [] {
      assert a + b == b;
    } else {
      assert (a + b)[1..] == a[1..] + b;
      CountAppend(a[1..], b, c);
    }
  }

  /** `parts.join(sep)`: the parts in order with one `sep` between neighbours. */
  function Join(parts: seq<string>, sep: char): (s: string)
    ensures parts == [] ==> s == ""
    ensures |parts| >= 1 ==> parts[0] <= s
  {
    if |parts| == 0 then ""
    else if |parts| == 1 then parts[0]
    else parts[0] + [sep] + Join(parts[1..], sep)
  }

  /** A join ends with its last part. */
  lemma {:induction false} JoinEndsWithLast(parts: seq<string>, sep: char)
    requires |parts| >= 1
    ensures var s, last := Join(parts, sep), parts[|parts| - 1];
      |last| <= |s| && s[|s| - |last|..] == last
  {
    if |parts| > 1 {
      JoinEndsWithLast(parts[1..], sep);
      var t := Join(parts[1..], sep);
      assert Join(parts, sep) == (parts[0] + [sep]) + t;
    }
  }

  /**
   * `s.split(sep)`: the maximal pieces of `s` between occurrences of `sep`.
   * Adjacent, leading and trailing separators give empty pieces, and the
   * empty string gives one empty piece.
   */
  function Split(s: string, sep: char): (parts: seq<string>)
    ensures |parts| == Count(s, sep) + 1
    ensures forall i :: 0 <= i < |parts| ==> sep !in parts[i]
    decreases |s|
  {
    if s == [] then [""]
    else
      var rest := Split(s[1..], sep);
      if s[0] == sep then [""] + rest
      else [[s[0]] + rest[0]] + rest[1..]
  }

  lemma AppendAssociative(a: string, b: string, c: string)
    ensures a + (b + c) == (a + b) + c
  {
  }

  /** Splitting after a separator: an empty piece in front. */
  lemma SplitAtSeparator(t: string, sep: char)
    ensures Split([sep] + t, sep) == [""] + Split(t, sep)
  {
    assert ([sep] + t)[1..] == t;
  }

  /** Splitting after another character: it joins the first piece. */
  lemma SplitAtOther(c: char, t: string, sep: char)
    requires c != sep
    ensures Split([c] + t, sep) == [[c] + Split(t, sep)[0]] + Split(t, sep)[1..]
  {
    assert ([c] + t)[1..] == t;
  }

  /** The separator count of a join: one between each pair of neighbours. */
  lemma {:induction false} CountJoin(parts: seq<string>, sep: char)
    requires |parts| >= 1
    requires forall i :: 0 <= i < |parts| ==> sep !in parts[i]
    ensures Count(Join(parts, sep), sep) == |parts| - 1
  {
    if |parts| > 1 {
      CountJoin(parts[1..], sep);
      CountAppend(parts[0] + [sep], Join(parts[1..], sep), sep);
      CountAppend(parts[0], [sep], sep);
      assert Count(parts[0], sep) == 0;
    }
  }

  lemma {:induction false} JoinWithHead(h: string, parts: seq<string>, sep: char)
    requires |parts| >= 1
    ensures Join([h + parts[0]] + parts[1..], sep) == h + Join(parts, sep)
  {
    var q := [h + parts[0]] + parts[1..];
    assert q[1..] == parts[1..];
  }

  lemma JoinWithEmptyHead(parts: seq<string>, sep: char)
    requires |parts| >= 1
    ensures Join([""] + parts, sep) == [sep] + Join(parts, sep)
  {
    var q := [""] + parts;
    assert q[1..] == parts;
    assert "" + [sep] == [sep];
  }

  lemma JoinTwo(a: string, b: string, sep: char)
    ensures Join([a, b], sep) == a + [sep] + b
  {
    assert [a, b][1..] == [b];
  }

  lemma JoinThree(a: string, b: string, c: string, sep: char)
    ensures Join([a, b, c], sep) == a + [sep] + b + [sep] + c
  {
    assert [a, b, c][1..] == [b, c];
    JoinTwo(b, c, sep);
  }

  /** Joining the pieces of a split gives back the string: split loses nothing. */
  lemma {:induction false} JoinSplit(s: string, sep: char)
    ensures Join(Split(s, sep), sep) == s
    decreases |s|
  {
    if s != [] {
      var rest := Split(s[1..], sep);
      JoinSplit(s[1..], sep);
      assert s == [s[0]] + s[1..];
      if s[0] == sep {
        SplitAtSeparator(s[1..], sep);
        JoinWithEmptyHead(rest, sep);
      } else {
        SplitAtOther(s[0], s[1..], sep);
        JoinWithHead([s[0]], rest, sep);
      }
    }
  }

  /** Splitting a string that starts with a separator-free piece. */
  lemma {:induction false} SplitAfterPiece(x: string, t: string, sep: char)
    requires sep !in x
    ensures Split(x + t, sep) == [x + Split(t, sep)[0]] + Split(t, sep)[1..]
  {
    var p := Split(t, sep);
    if x == [] {
      assert x + t == t;
      assert x + p[0] == p[0];
      assert [p[0]] + p[1..] == p;
    } else {
      SplitAfterPiece(x[1..], t, sep);
      assert [x[0]] + x[1..] == x;
      AppendAssociative([x[0]], x[1..], t);
      SplitAtOther(x[0], x[1..] + t, sep);
      AppendAssociative([x[0]], x[1..], p[0]);
    }
  }

  /**
   * Splitting a join gives back the parts, provided there is at least one
   * part and no part contains the separator. (`[]` and `[""]` both join to
   * `""`, so the first condition cannot be dropped.)
   */
  lemma {:induction false} SplitJoin(parts: seq<string>, sep: char)
    requires |parts| >= 1
    requires forall i :: 0 <= i < |parts| ==> sep !in parts[i]
    ensures Split(Join(parts, sep), sep) == parts
  {
    if |parts| == 1 {
      SplitAfterPiece(parts[0], "", sep);
      assert parts[0] + "" == parts[0];
    } else {
      var t := [sep] + Join(parts[1..], sep);
      assert Join(parts, sep) == parts[0] + t;
      SplitAfterPiece(parts[0], t, sep);
      SplitJoin(parts[1..], sep);
      assert t[1..] == Join(parts[1..], sep);
      assert Split(t, sep) == [""] + parts[1..];
      assert parts[0] + "" == parts[0];
      assert parts == [parts[0]] + parts[1..];
    }
  }

  lemma JoinEmptyAmbiguous(sep: char)
    ensures Join([], sep) == Join([""], sep) == ""
  {
  }

  /**
   * The characters `String.prototype.trim` removes: the WhiteSpace and
   * LineTerminator code points of section 12.2 and 12.3 of ECMA-262
   * (the space separators of Unicode category Zs included).
   */
  const WhiteSpace: seq<char> := [
    '\t', '\U{B}', '\U{C}', ' ', '\U{A0}', '\U{FEFF}',
    // Unicode category Zs
    '\U{1680}', '\U{2000}', '\U{2001}', '\U{2002}', '\U{2003}', '\U{2004}', '\U{2005}',
    '\U{2006}', '\U{2007}', '\U{2008}', '\U{2009}', '\U{200A}', '\U{202F}', '\U{205F}', '\U{3000}',
    // line terminators
    '\n', '\r', '\U{2028}', '\U{2029}'
  ]

  /** Whether `c` is one of `cs`. */
  predicate Occurs(c: char, cs: seq<char>)
  {
    cs != [] && (cs[0] == c || Occurs(c, cs[1..]))
  }

  predicate IsWhiteSpace(c: char)
  {
    Occurs(c, WhiteSpace)
  }

  /** A character strictly between all elements' bounds does not occur. */
  lemma {:induction false} OccursOutside(c: char, cs: seq<char>)
    requires forall i :: 0 <= i < |cs| ==> cs[i] <= ' ' || '\U{A0}' <= cs[i]
    requires ' ' < c < '\U{A0}'
    ensures !Occurs(c, cs)
    decreases |cs|
  {
    if cs != [] {
      assert cs[0] != c;
      OccursOutside(c, cs[1..]);
    }
  }

  lemma SpaceIsWhiteSpace()
    ensures IsWhiteSpace(' ')
  {
    assert WhiteSpace[3] == ' ';
    assert WhiteSpace[3..][0] == ' ';
  }

  /** The printable ASCII characters other than the space are not white space. */
  lemma VisibleAsciiIsNotWhiteSpace(c: char)
    requires ' ' < c <= '~'
    ensures !IsWhiteSpace(c)
  {
    OccursOutside(c, WhiteSpace);
  }

  /** A string with no white space at either end. */
  predicate IsTrimmed(s: string)
  {
    s == [] || (!IsWhiteSpace(s[0]) && !IsWhiteSpace(s[|s| - 1]))
  }

  /** A string that starts and ends with a visible ASCII character is trimmed. */
  lemma VisibleEndsTrimmed(s: string)
    requires |s| > 0 && ' ' < s[0] <= '~' && ' ' < s[|s| - 1] <= '~'
    ensures IsTrimmed(s)
  {
    VisibleAsciiIsNotWhiteSpace(s[0]);
    VisibleAsciiIsNotWhiteSpace(s[|s| - 1]);
  }

  /** Drops the leading white space: what is left is a suffix of `s`. */
  function TrimStart(s: string): (r: string)
    ensures |r| <= |s| && r == s[|s| - |r|..]
    ensures r == [] || !IsWhiteSpace(r[0])
  {
    if s != [] && IsWhiteSpace(s[0]) then TrimStart(s[1..]) else s
  }

  /** Drops the trailing white space: what is left is a prefix of `s`. */
  function TrimEnd(s: string): (r: string)
    ensures |r| <= |s| && r == s[..|r|]
    ensures r == [] || !IsWhiteSpace(r[|r| - 1])
  {
    if s != [] && IsWhiteSpace(s[|s| - 1]) then TrimEnd(s[..|s| - 1]) else s
  }

  /** Everything `TrimStart` drops is white space. */
  lemma {:induction false} TrimStartDropsWhiteSpace(s: string)
    ensures forall k :: 0 <= k < |s| - |TrimStart(s)| ==> IsWhiteSpace(s[k])
  {
    if s != [] && IsWhiteSpace(s[0]) {
      TrimStartDropsWhiteSpace(s[1..]);
      forall k | 1 <= k < |s| - |TrimStart(s)| ensures IsWhiteSpace(s[k]) {
        assert s[k] == s[1..][k - 1];
      }
    }
  }

  /** Everything `TrimEnd` drops is white space. */
  lemma {:induction false} TrimEndDropsWhiteSpace(s: string)
    ensures forall k :: |TrimEnd(s)| <= k < |s| ==> IsWhiteSpace(s[k])
  {
    if s != [] && IsWhiteSpace(s[|s| - 1]) {
      TrimEndDropsWhiteSpace(s[..|s| - 1]);
      forall k | |TrimEnd(s)| <= k < |s| - 1 ensures IsWhiteSpace(s[k]) {
        assert s[k] == s[..|s| - 1][k];
      }
    }
  }

  /** `s.trim()`: the white space at both ends dropped. */
  function Trim(s: string): (r: string)
    ensures IsTrimmed(r)
  {
    var a := TrimStart(s);
    var r := TrimEnd(a);
    assert r == [] || !IsWhiteSpace(r[0]) by {
      if r != [] { assert r[0] == a[0]; }
    }
    r
  }

  /** What `trim` leaves is a slice of `s`, starting after the leading white space. */
  lemma TrimIsSlice(s: string)
    ensures var r, i := Trim(s), |s| - |TrimStart(s)|;
      i + |r| <= |s| && r == s[i..i + |r|]
  {
    var a := TrimStart(s);
    var r := Trim(s);
    var i := |s| - |a|;
    assert r == TrimEnd(a);
    PrefixOfSuffix(s, i, |r|);
  }

  lemma PrefixOfSuffix(s: string, i: nat, n: nat)
    requires i + n <= |s|
    ensures s[i..][..n] == s[i..i + n]
  {
  }

  /** Past the slice `trim` keeps there is only white space. */
  lemma TrimDropsTrailingWhiteSpace(s: string)
    ensures forall k :: |s| - |TrimStart(s)| + |Trim(s)| <= k < |s| ==> IsWhiteSpace(s[k])
  {
    var a := TrimStart(s);
    var i := |s| - |a|;
    assert Trim(s) == TrimEnd(a);
    TrimEndDropsWhiteSpace(a);
    forall k | i + |Trim(s)| <= k < |s| ensures IsWhiteSpace(s[k]) {
      assert s[k] == a[k - i];
    }
  }

  /**
   * All that `trim` drops is white space: at the front what `TrimStart`
   * drops, and at the back everything after the slice it keeps.
   */
  lemma TrimDropsWhiteSpace(s: string)
    ensures forall k :: 0 <= k < |s| - |TrimStart(s)| ==> IsWhiteSpace(s[k])
    ensures forall k :: |s| - |TrimStart(s)| + |Trim(s)| <= k < |s| ==> IsWhiteSpace(s[k])
  {
    TrimStartDropsWhiteSpace(s);
    TrimDropsTrailingWhiteSpace(s);
  }

  /** Trimming keeps only characters of the input. */
  lemma TrimKeepsCharacters(s: string)
    ensures forall c :: c in Trim(s) ==> c in s
  {
    var a := TrimStart(s);
    var r := Trim(s);
    assert r == TrimEnd(a) && r == a[..|r|];
    forall c | c in r ensures c in s {
      assert c in a;
    }
  }

  lemma {:induction false} TrimStartSkips(l: string, t: string)
    requires forall k :: 0 <= k < |l| ==> IsWhiteSpace(l[k])
    ensures TrimStart(l + t) == TrimStart(t)
  {
    if l != [] {
      assert (l + t)[1..] == l[1..] + t;
      TrimStartSkips(l[1..], t);
    } else {
      assert l + t == t;
    }
  }

  lemma {:induction false} TrimEndSkips(t: string, r: string)
    requires forall k :: 0 <= k < |r| ==> IsWhiteSpace(r[k])
    ensures TrimEnd(t + r) == TrimEnd(t)
  {
    if r != [] {
      var q := t + r;
      assert q[..|q| - 1] == t + r[..|r| - 1];
      TrimEndSkips(t, r[..|r| - 1]);
    } else {
      assert t + r == t;
    }
  }

  /** A string of white space only trims to the empty string. */
  lemma TrimWhiteSpaceOnly(l: string, r: string)
    requires forall k :: 0 <= k < |l| ==> IsWhiteSpace(l[k])
    requires forall k :: 0 <= k < |r| ==> IsWhiteSpace(r[k])
    ensures Trim(l + r) == []
  {
    TrimStartSkips(l, r);
    assert r == r + [];
    TrimStartSkips(r, []);
    assert TrimStart(l + r) == [];
  }

  lemma TrimAroundNonEmpty(l: string, m: string, r: string)
    requires forall k :: 0 <= k < |l| ==> IsWhiteSpace(l[k])
    requires forall k :: 0 <= k < |r| ==> IsWhiteSpace(r[k])
    requires m != [] && IsTrimmed(m)
    ensures Trim(l + (m + r)) == m
  {
    TrimStartSkips(l, m + r);
    assert (m + r)[0] == m[0];
    assert TrimStart(m + r) == m + r;
    TrimEndSkips(m, r);
    assert TrimEnd(m) == m;
  }

  /** White space around a trimmed string is exactly what `trim` removes. */
  lemma TrimPadded(l: string, m: string, r: string)
    requires forall k :: 0 <= k < |l| ==> IsWhiteSpace(l[k])
    requires forall k :: 0 <= k < |r| ==> IsWhiteSpace(r[k])
    requires IsTrimmed(m)
    ensures Trim(l + m + r) == m
  {
    if m == [] {
      assert l + m + r == l + r;
      TrimWhiteSpaceOnly(l, r);
    } else {
      assert l + m + r == l + (m + r);
      TrimAroundNonEmpty(l, m, r);
    }
  }

  /** Trimming a trimmed string changes nothing. */
  lemma TrimTrimmed(s: string)
    requires IsTrimmed(s)
    ensures Trim(s) == s
  {
  }
}
