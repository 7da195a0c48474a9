/** Go strings as byte sequences: the operations of Go's `strings` package
    that the catalog and configuration code use, the byte-wise ordering that
    `sort.Strings` sorts by, and the byte bookkeeping of a list of lines. */
module Strings {

  /** A Go string is a sequence of bytes; `len` counts bytes. */
  newtype byte = b: int | 0 <= b < 0x100

  const SLASH: byte := '/' as byte
  const DOT: byte := '.' as byte
  const NEWLINE: byte := '\n' as byte
  const COMMA: byte := ',' as byte

  /** strings.TrimPrefix: `s` without a leading `prefix`, or `s` itself when
      it does not start with `prefix`. */
  function TrimPrefix(s: seq<byte>, prefix: seq<byte>): (r: seq<byte>)
    ensures prefix <= s ==> prefix + r == s
    ensures !(prefix <= s) ==> r == s
  {
    if prefix <= s then s[|prefix|..] else s
  }

  // ---------------------------------------------------------------------
  // strings.Split and its inverse strings.Join, for a one-byte separator

  function Join(parts: seq<seq<byte>>, sep: byte): seq<byte>
  {
    if |parts| == 0 then []
    else if |parts| == 1 then parts[0]
    else parts[0] + [sep] + Join(parts[1..], sep)
  }

  /** strings.Split(s, sep): the pieces of `s` between separators. There is
      always at least one piece (the empty string splits into [""]), no piece
      holds the separator, and joining the pieces gives `s` back. */
  function Split(s: seq<byte>, sep: byte): (parts: seq<seq<byte>>)
    ensures |parts| >= 1
    ensures forall i :: 0 <= i < |parts| ==> sep !in parts[i]
    ensures Join(parts, sep) == s
  {
    if s == [] then [[]]
    else if s[0] == sep then [[]] + Split(s[1..], sep)
    else
      var rest := Split(s[1..], sep);
      [[s[0]] + rest[0]] + rest[1..]
  }

  /** Splitting a piece free of the separator followed by anything extends
      the first piece of the rest. */
  lemma {:induction false} SplitPrefix(p: seq<byte>, tail: seq<byte>, sep: byte)
    requires sep !in p
    ensures Split(p + tail, sep) == [p + Split(tail, sep)[0]] + Split(tail, sep)[1..]
  {
    if p != [] {
      SplitPrefix(p[1..], tail, sep);
      assert (p + tail)[1..] == p[1..] + tail;
      assert [p[0]] + (p[1..] + Split(tail, sep)[0]) == p + Split(tail, sep)[0];
    } else {
      assert p + tail == tail;
      assert p + Split(tail, sep)[0] == Split(tail, sep)[0];
      assert Split(tail, sep) == [Split(tail, sep)[0]] + Split(tail, sep)[1..];
    }
  }

  /** Split undoes Join whenever no piece holds the separator. */
  lemma {:induction false} SplitJoin(parts: seq<seq<byte>>, sep: byte)
    requires |parts| >= 1
    requires forall i :: 0 <= i < |parts| ==> sep !in parts[i]
    ensures Split(Join(parts, sep), sep) == parts
  {
    if |parts| == 1 {
      SplitPrefix(parts[0], [], sep);
      assert parts[0] + [] == parts[0];
      assert Split([], sep) == [[]];
      assert Join(parts, sep) == parts[0];
      assert parts == [parts[0]];
    } else {
      var rest := Join(parts[1..], sep);
      SplitJoin(parts[1..], sep);
      assert parts[0] + [sep] + rest == parts[0] + ([sep] + rest);
      SplitPrefix(parts[0], [sep] + rest, sep);
      assert ([sep] + rest)[1..] == rest;
      assert Split([sep] + rest, sep) == [[]] + parts[1..];
      assert parts[0] + [] == parts[0];
      assert parts == [parts[0]] + parts[1..];
    }
  }

  // ---------------------------------------------------------------------
  // A list of lines: their concatenation and their total byte length

  /** strings.HasSuffix. */
  predicate EndsWith(s: seq<byte>, suffix: seq<byte>)
  {
    |suffix| <= |s| && s[|s| - |suffix|..] == suffix
  }

  /** One line: newline-terminated, with no newline before the end. */
  predicate IsLine(line: seq<byte>)
  {
    line != [] && line[|line| - 1] == NEWLINE && NEWLINE !in line[..|line| - 1]
  }

  function Concat(lines: seq<seq<byte>>): seq<byte>
  {
    if lines == [] then [] else lines[0] + Concat(lines[1..])
  }

  function TotalLength(lines: seq<seq<byte>>): nat
  {
    if lines == [] then 0 else |lines[0]| + TotalLength(lines[1..])
  }

  /** The total length of a list of lines is the length of their concatenation. */
  lemma {:induction false} ConcatLength(lines: seq<seq<byte>>)
    ensures |Concat(lines)| == TotalLength(lines)
  {
    if lines != [] {
      ConcatLength(lines[1..]);
    }
  }

  lemma {:induction false} ConcatAppend(a: seq<seq<byte>>, b: seq<seq<byte>>)
    ensures Concat(a + b) == Concat(a) + Concat(b)
  {
    if a == [] {
      assert a + b == b;
    } else {
      assert (a + b)[1..] == a[1..] + b;
      ConcatAppend(a[1..], b);
    }
  }

  lemma {:induction false} TotalLengthAppend(a: seq<seq<byte>>, b: seq<seq<byte>>)
    ensures TotalLength(a + b) == TotalLength(a) + TotalLength(b)
  {
    if a == [] {
      assert a + b == b;
    } else {
      assert (a + b)[1..] == a[1..] + b;
      TotalLengthAppend(a[1..], b);
    }
  }

  lemma TotalLengthRemove(t: seq<seq<byte>>, j: nat)
    requires j < |t|
    ensures TotalLength(t) == |t[j]| + TotalLength(t[..j] + t[j+1..])
  {
    assert t == t[..j] + ([t[j]] + t[j+1..]);
    TotalLengthAppend(t[..j], [t[j]] + t[j+1..]);
    TotalLengthAppend(t[..j], t[j+1..]);
  }

  lemma MultisetRemove(s: seq<seq<byte>>, t: seq<seq<byte>>, j: nat)
    requires s != [] && j < |t| && t[j] == s[0]
    requires multiset(s) == multiset(t)
    ensures multiset(s[1..]) == multiset(t[..j] + t[j+1..])
  {
    assert s == [s[0]] + s[1..];
    assert t == t[..j] + [t[j]] + t[j+1..];
    assert multiset(s) == multiset{s[0]} + multiset(s[1..]);
    assert multiset(t) == multiset(t[..j]) + multiset{t[j]} + multiset(t[j+1..]);
    calc {
      multiset(s[1..]);
      multiset(s) - multiset{s[0]};
      multiset(t) - multiset{t[j]};
      multiset(t[..j] + t[j+1..]);
    }
  }

  /** Reordering a list of lines does not change its total length. */
  lemma {:induction false} TotalLengthPermutation(s: seq<seq<byte>>, t: seq<seq<byte>>)
    requires multiset(s) == multiset(t)
    ensures TotalLength(s) == TotalLength(t)
    decreases |s|
  {
    if s != [] {
      assert s[0] in multiset(t) by { assert s[0] in multiset(s); }
      var j :| 0 <= j < |t| && t[j] == s[0];
      MultisetRemove(s, t, j);
      TotalLengthPermutation(s[1..], t[..j] + t[j+1..]);
      TotalLengthRemove(t, j);
    } else {
      assert |t| == |multiset(t)| == 0;
    }
  }

  // ---------------------------------------------------------------------
  // The byte-wise order of Go string comparison

  /** Go's `a <= b` on strings: bytes compared as unsigned values from the
      front; a proper prefix sorts before the longer string. */
  predicate LessEq(a: seq<byte>, b: seq<byte>)
  {
    if a == [] then true
    else if b == [] then false
    else if a[0] != b[0] then a[0] < b[0]
    else LessEq(a[1..], b[1..])
  }

  /** The lexicographic order stated directly: `a` is a prefix of `b`, or they
      first differ at an index where `a` has the smaller byte. */
  ghost predicate Lexicographic(a: seq<byte>, b: seq<byte>)
  {
    a <= b || exists k :: 0 <= k < |a| && k < |b| && a[..k] == b[..k] && a[k] < b[k]
  }

  lemma LexicographicHeadsDiffer(a: seq<byte>, b: seq<byte>)
    requires a != [] && b != [] && a[0] != b[0]
    ensures Lexicographic(a, b) <==> a[0] < b[0]
  {
    if a[0] < b[0] {
      assert a[..0] == b[..0];
    }
    forall k | 0 <= k < |a| && k < |b| && a[..k] == b[..k]
      ensures k == 0
    {
    }
  }

  lemma LexicographicFromTails(a: seq<byte>, b: seq<byte>)
    requires a != [] && b != [] && a[0] == b[0]
    requires Lexicographic(a[1..], b[1..])
    ensures Lexicographic(a, b)
  {
    assert a == [a[0]] + a[1..] && b == [b[0]] + b[1..];
    if !(a[1..] <= b[1..]) {
      var k :| 0 <= k < |a[1..]| && k < |b[1..]| && a[1..][..k] == b[1..][..k] && a[1..][k] < b[1..][k];
      assert a[..k+1] == [a[0]] + a[1..][..k];
      assert b[..k+1] == [b[0]] + b[1..][..k];
    }
  }

  lemma LexicographicToTails(a: seq<byte>, b: seq<byte>)
    requires a != [] && b != [] && a[0] == b[0]
    requires Lexicographic(a, b)
    ensures Lexicographic(a[1..], b[1..])
  {
    assert a == [a[0]] + a[1..] && b == [b[0]] + b[1..];
    if !(a <= b) {
      var k :| 0 <= k < |a| && k < |b| && a[..k] == b[..k] && a[k] < b[k];
      assert k != 0;
      assert a[1..][..k-1] == a[..k][1..];
      assert b[1..][..k-1] == b[..k][1..];
      assert a[1..][k-1] == a[k] && b[1..][k-1] == b[k];
    }
  }

  /** Go's byte-wise comparison is the lexicographic order. */
  lemma {:induction false} LessEqIsLexicographic(a: seq<byte>, b: seq<byte>)
    ensures LessEq(a, b) <==> Lexicographic(a, b)
  {
    if a == [] {
    } else if b == [] {
    } else if a[0] != b[0] {
      LexicographicHeadsDiffer(a, b);
    } else {
      LessEqIsLexicographic(a[1..], b[1..]);
      if Lexicographic(a, b) {
        LexicographicToTails(a, b);
      }
      if Lexicographic(a[1..], b[1..]) {
        LexicographicFromTails(a, b);
      }
    }
  }

  lemma {:induction false} LessEqReflexive(a: seq<byte>)
    ensures LessEq(a, a)
  {
    if a != [] {
      LessEqReflexive(a[1..]);
    }
  }

  lemma {:induction false} LessEqTotal(a: seq<byte>, b: seq<byte>)
    ensures LessEq(a, b) || LessEq(b, a)
  {
    if a != [] && b != [] && a[0] == b[0] {
      LessEqTotal(a[1..], b[1..]);
    }
  }

  lemma {:induction false} LessEqAntisymmetric(a: seq<byte>, b: seq<byte>)
    requires LessEq(a, b) && LessEq(b, a)
    ensures a == b
  {
    if a != [] && b != [] {
      LessEqAntisymmetric(a[1..], b[1..]);
      assert a == [a[0]] + a[1..] && b == [b[0]] + b[1..];
    }
  }

  lemma {:induction false} LessEqTransitive(a: seq<byte>, b: seq<byte>, c: seq<byte>)
    requires LessEq(a, b) && LessEq(b, c)
    ensures LessEq(a, c)
  {
    if a != [] && b != [] && c != [] && a[0] == b[0] && b[0] == c[0] {
      LessEqTransitive(a[1..], b[1..], c[1..]);
    }
  }

  /** Sorted ascending in Go's byte-wise string order. */
  predicate Sorted(s: seq<seq<byte>>)
  {
    forall i, j :: 0 <= i < j < |s| ==> LessEq(s[i], s[j])
  }

  /** Each line no greater than its successor makes the whole list sorted. */
  lemma AdjacentSorted(s: seq<seq<byte>>)
    requires forall k :: 0 < k < |s| ==> LessEq(s[k-1], s[k])
    ensures Sorted(s)
  {
    forall i, j | 0 <= i < j < |s|
      ensures LessEq(s[i], s[j])
    {
      AdjacentChain(s, i, j);
    }
  }

  lemma {:induction false} AdjacentChain(s: seq<seq<byte>>, i: nat, j: nat)
    requires forall k :: 0 < k < |s| ==> LessEq(s[k-1], s[k])
    requires i < j < |s|
    ensures LessEq(s[i], s[j])
    decreases j - i
  {
    if i + 1 < j {
      AdjacentChain(s, i, j - 1);
      LessEqTransitive(s[i], s[j-1], s[j]);
    }
  }

  lemma SortedHeadLeast(s: seq<seq<byte>>, x: seq<byte>)
    requires Sorted(s) && x in multiset(s)
    ensures LessEq(s[0], x)
  {
    var i :| 0 <= i < |s| && s[i] == x;
    if i == 0 {
      LessEqReflexive(x);
    }
  }

  lemma SortedTail(s: seq<seq<byte>>)
    requires Sorted(s) && s != []
    ensures Sorted(s[1..])
  {
    forall i, j | 0 <= i < j < |s[1..]|
      ensures LessEq(s[1..][i], s[1..][j])
    {
      assert s[1..][i] == s[i+1] && s[1..][j] == s[j+1];
    }
  }

  /** There is only one sorted arrangement of a multiset of strings: two
      sorted lists with the same elements are equal. */
  lemma {:induction false} SortedUnique(s: seq<seq<byte>>, t: seq<seq<byte>>)
    requires Sorted(s) && Sorted(t)
    requires multiset(s) == multiset(t)
    ensures s == t
    decreases |s|
  {
    assert |t| == |multiset(t)| == |multiset(s)| == |s|;
    if s != [] {
      assert s[0] in multiset(s) && t[0] in multiset(t);
      SortedHeadLeast(t, s[0]);
      SortedHeadLeast(s, t[0]);
      LessEqAntisymmetric(s[0], t[0]);
      MultisetRemove(s, t, 0);
      assert t[..0] + t[1..] == t[1..];
      SortedTail(s);
      SortedTail(t);
      SortedUnique(s[1..], t[1..]);
      assert s == [s[0]] + s[1..] && t == [t[0]] + t[1..];
    }
  }
}
