/**
 * The pieces of Go's `sort` and `strings` packages that the health check
 * relies on: the ordering of strings, `sort.Strings`, `strings.Split` on a
 * one-character separator and `strings.ToLower` restricted to ASCII.
 */
module GoStrings {

  /** Go's `a < b` on strings: lexicographic on code points, which for
      valid UTF-8 is the same order as Go's comparison of the bytes. A Go
      string holding invalid UTF-8 has no counterpart here. */
  predicate Less(a: string, b: string)
    decreases |a|
  {
    if |a| == 0 then |b| != 0
    else if |b| == 0 then false
    else if a[0] != b[0] then a[0] < b[0]
    else Less(a[1..], b[1..])
  }

  lemma {:induction false} LessIrreflexive(a: string)
    ensures !Less(a, a)
    decreases |a|
  {
    if |a| != 0 {
      LessIrreflexive(a[1..]);
    }
  }

  lemma {:induction false} LessTransitive(a: string, b: string, c: string)
    requires Less(a, b) && Less(b, c)
    ensures Less(a, c)
    decreases |a|
  {
    if |a| != 0 && a[0] == b[0] && b[0] == c[0] {
      LessTransitive(a[1..], b[1..], c[1..]);
    }
  }

  lemma {:induction false} LessTotal(a: string, b: string)
    ensures a == b || Less(a, b) || Less(b, a)
    decreases |a|
  {
    if |a| != 0 && |b| != 0 && a[0] == b[0] {
      LessTotal(a[1..], b[1..]);
      assert a == [a[0]] + a[1..];
      assert b == [b[0]] + b[1..];
    }
  }

  /** Ascending order, as `sort.Strings` leaves a slice. */
  predicate NonDecreasing(s: seq<string>)
  {
    forall i, j :: 0 <= i < j < |s| ==> !Less(s[j], s[i])
  }

  lemma NonDecreasingTail(s: seq<string>)
    requires NonDecreasing(s) && |s| != 0
    ensures NonDecreasing(s[1..])
  {
    forall i, j | 0 <= i < j < |s| - 1
      ensures !Less(s[1..][j], s[1..][i])
    {
      assert s[1..][j] == s[j + 1] && s[1..][i] == s[i + 1];
    }
  }

  /** Two ascending sequences holding the same strings are the same sequence:
      the result of sorting does not depend on the order of the input. */
  lemma {:induction false} SortedUnique(a: seq<string>, b: seq<string>)
    requires NonDecreasing(a) && NonDecreasing(b)
    requires multiset(a) == multiset(b)
    ensures a == b
    decreases |a|
  {
    assert |a| == |multiset(a)| == |multiset(b)| == |b|;
    if |a| != 0 {
      HeadsAgree(a, b);
      assert a == [a[0]] + a[1..];
      assert b == [b[0]] + b[1..];
      assert multiset(a[1..]) == multiset(a) - multiset{a[0]};
      assert multiset(b[1..]) == multiset(b) - multiset{b[0]};
      NonDecreasingTail(a);
      NonDecreasingTail(b);
      SortedUnique(a[1..], b[1..]);
    }
  }

  /** Two non-empty ascending sequences with the same elements start with
      the same element: the smallest one. */
  lemma HeadsAgree(a: seq<string>, b: seq<string>)
    requires NonDecreasing(a) && NonDecreasing(b)
    requires multiset(a) == multiset(b) && |a| != 0 && |b| != 0
    ensures a[0] == b[0]
  {
    assert a[0] in multiset(b);
    var j :| 0 <= j < |b| && b[j] == a[0];
    assert b[0] in multiset(a);
    var i :| 0 <= i < |a| && a[i] == b[0];
    LessIrreflexive(a[0]);
    assert !Less(a[0], b[0]);
    assert !Less(b[0], a[0]);
    LessTotal(a[0], b[0]);
  }

  /** Inserting x in front of the first element greater than it keeps the
      sequence ascending. */
  lemma InsertKeepsOrder(s: seq<string>, j: nat, x: string)
    requires NonDecreasing(s) && j <= |s|
    requires forall t :: 0 <= t < j ==> !Less(x, s[t])
    requires j < |s| ==> Less(x, s[j])
    ensures NonDecreasing(s[..j] + [x] + s[j..])
  {
    var r := s[..j] + [x] + s[j..];
    forall p, q | 0 <= p < q < |r|
      ensures !Less(r[q], r[p])
    {
      if q == j {
        assert r[p] == s[p];
      } else if p == j {
        assert r[q] == s[q - 1];
        if Less(s[q - 1], x) {
          if q - 1 == j {
            LessIrreflexive(x);
            LessTransitive(x, s[j], x);
          } else {
            LessTransitive(s[q - 1], x, s[j]);
          }
        }
      }
    }
  }

  /** `sort.Strings`. The model sorts by insertion, over the slice's values;
      Go uses another algorithm, but SortedUnique shows that any sort
      leaves the same result. */
  method SortStrings(names: seq<string>) returns (sorted: seq<string>)
    ensures NonDecreasing(sorted)
    ensures multiset(sorted) == multiset(names)
  {
    sorted := [];
    for i := 0 to |names|
      invariant NonDecreasing(sorted)
      invariant multiset(sorted) == multiset(names[..i])
    {
      var x := names[i];
      var j := 0;
      while j < |sorted| && !Less(x, sorted[j])
        invariant 0 <= j <= |sorted|
        invariant forall t :: 0 <= t < j ==> !Less(x, sorted[t])
      {
        j := j + 1;
      }
      InsertKeepsOrder(sorted, j, x);
      assert sorted == sorted[..j] + sorted[j..];
      assert names[..i + 1] == names[..i] + [x];
      sorted := sorted[..j] + [x] + sorted[j..];
    }
    assert names[..|names|] == names;
  }

  /** The smallest string of a non-empty set. */
  ghost function Least(s: set<string>): (x: string)
    requires s != {}
    ensures x in s && forall y :: y in s ==> !Less(y, x)
    decreases s
  {
    var e :| e in s;
    LessIrreflexive(e);
    if s == {e} then e
    else
      var x := Least(s - {e});
      if Less(e, x) then
        assert forall y :: y in s ==> !Less(y, e) by {
          forall y | y in s
            ensures !Less(y, e)
          {
            if y != e && Less(y, e) {
              LessTransitive(y, e, x);
            }
          }
        }
        e
      else x
  }

  /** The strings of a set in ascending order. */
  ghost function SortedKeys(s: set<string>): (r: seq<string>)
    ensures NonDecreasing(r)
    ensures multiset(r) == multiset(s)
    decreases s
  {
    if s == {} then []
    else
      var x := Least(s);
      var rest := SortedKeys(s - {x});
      assert forall k :: 0 <= k < |rest| ==> rest[k] in s by {
        forall k | 0 <= k < |rest|
          ensures rest[k] in s
        {
          assert rest[k] in multiset(rest);
        }
      }
      assert multiset(s) == multiset{x} + multiset(s - {x});
      [x] + rest
  }

  lemma SortedKeysHas(s: set<string>, k: string)
    ensures k in SortedKeys(s) <==> k in s
  {
    assert k in SortedKeys(s) <==> k in multiset(SortedKeys(s));
  }

  lemma SortedKeysSize(s: set<string>)
    ensures |SortedKeys(s)| == |s|
  {
    assert |SortedKeys(s)| == |multiset(SortedKeys(s))| == |multiset(s)|;
  }

  lemma SortedKeysSingleton(k: string)
    ensures SortedKeys({k}) == [k]
  {
    var r := SortedKeys({k});
    SortedKeysSize({k});
    SortedKeysHas({k}, r[0]);
  }

  /** `strings.Split(s, sep)` for a one-character separator: the pieces
      between separators, n + 1 pieces for n separators (so "" gives [""]). */
  function Split(s: string, sep: char): (parts: seq<string>)
    ensures |parts| >= 1
    ensures forall i :: 0 <= i < |parts| ==> sep !in parts[i]
    decreases |s|
  {
    if |s| == 0 then [""]
    else
      var rest := Split(s[1..], sep);
      if s[0] == sep then [""] + rest
      else [[s[0]] + rest[0]] + rest[1..]
  }

  /** `strings.Join(parts, sep)`, the inverse of Split. */
  function Join(parts: seq<string>, sep: char): string
    requires |parts| >= 1
    decreases |parts|
  {
    if |parts| == 1 then parts[0] else parts[0] + [sep] + Join(parts[1..], sep)
  }

  /** Joining the pieces of s gives back s. */
  lemma {:induction false} JoinSplit(s: string, sep: char)
    ensures Join(Split(s, sep), sep) == s
    decreases |s|
  {
    if |s| != 0 {
      JoinSplit(s[1..], sep);
      var rest := Split(s[1..], sep);
      if s[0] != sep {
        if |rest| == 1 {
          assert [s[0]] + rest[0] == s;
        } else {
          var tail := [rest[0]] + rest[1..];
          assert Join(rest, sep) == rest[0] + [sep] + Join(rest[1..], sep);
          assert ([[s[0]] + rest[0]] + rest[1..])[1..] == rest[1..];
          assert s == [s[0]] + s[1..];
        }
      } else {
        assert ([""] + rest)[1..] == rest;
        assert s == [sep] + s[1..];
      }
    }
  }

  lemma {:induction false} SplitPiece(p: string, sep: char)
    requires sep !in p
    ensures Split(p, sep) == [p]
    decreases |p|
  {
    if |p| != 0 {
      SplitPiece(p[1..], sep);
      assert [p[0]] + p[1..] == p;
    }
  }

  lemma {:induction false} SplitAfterPiece(p: string, tail: string, sep: char)
    requires sep !in p
    ensures Split(p + [sep] + tail, sep) == [p] + Split(tail, sep)
    decreases |p|
  {
    var s := p + [sep] + tail;
    if |p| == 0 {
      assert s[1..] == tail;
    } else {
      assert s[1..] == p[1..] + [sep] + tail;
      SplitAfterPiece(p[1..], tail, sep);
      assert [p[0]] + p[1..] == p;
    }
  }

  /** Splitting a join of separator-free pieces gives back the pieces. */
  lemma {:induction false} SplitJoin(parts: seq<string>, sep: char)
    requires |parts| >= 1
    requires forall i :: 0 <= i < |parts| ==> sep !in parts[i]
    ensures Split(Join(parts, sep), sep) == parts
    decreases |parts|
  {
    if |parts| == 1 {
      SplitPiece(parts[0], sep);
    } else {
      SplitJoin(parts[1..], sep);
      SplitAfterPiece(parts[0], Join(parts[1..], sep), sep);
      assert parts == [parts[0]] + parts[1..];
    }
  }

  /** `unicode.ToLower` on the ASCII range; other characters are kept. */
  function LowerChar(c: char): char
  {
    if 'A' <= c <= 'Z' then (c as int - 'A' as int + 'a' as int) as char else c
  }

  /** `strings.ToLower`, ASCII letters only. */
  function ToLowerAscii(s: string): (r: string)
    ensures |r| == |s|
    ensures forall i :: 0 <= i < |s| ==> r[i] == LowerChar(s[i])
    ensures forall i :: 0 <= i < |r| ==> !('A' <= r[i] <= 'Z')
  {
    seq(|s|, i requires 0 <= i < |s| => LowerChar(s[i]))
  }
}
