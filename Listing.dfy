/**
 * Candidate selection in `main`: the directory entries that are regular
 * files with a supported suffix, in sorted order.
 */
module Listing {
  import opened Names

  /** One entry of the input directory: its name and whether it is a regular file. */
  datatype Entry = Entry(name: string, isFile: bool)

  /**
   * Python's `<=` on two names: code-point lexicographic order, a proper
   * prefix coming first. Paths with the same parent compare by name.
   */
  predicate LessEq(a: string, b: string)
  {
    |a| == 0 || (|b| > 0 && (a[0] < b[0] || (a[0] == b[0] && LessEq(a[1..], b[1..]))))
  }

  /** Any two names are ordered one way or the other. */
  lemma {:induction false} LessEqTotal(a: string, b: string)
    ensures LessEq(a, b) || LessEq(b, a)
  {
    if |a| > 0 && |b| > 0 && a[0] == b[0] {
      LessEqTotal(a[1..], b[1..]);
    }
  }

  /** Two names ordered both ways are the same name. */
  lemma {:induction false} LessEqAntisymmetric(a: string, b: string)
    requires LessEq(a, b) && LessEq(b, a)
    ensures a == b
  {
    if |a| > 0 && |b| > 0 {
      LessEqAntisymmetric(a[1..], b[1..]);
      assert a == [a[0]] + a[1..] && b == [b[0]] + b[1..];
    }
  }

  /** Every name is in order with each later one. */
  predicate Sorted(s: seq<string>)
  {
    forall i :: 0 < i < |s| ==> LessEq(s[i - 1], s[i])
  }

  /** x placed into a sorted sequence before the first name it does not follow. */
  function Insert(x: string, s: seq<string>): (r: seq<string>)
    requires Sorted(s)
    ensures Sorted(r)
    ensures multiset(r) == multiset(s) + multiset{x}
    ensures |r| > 0 && (r[0] == x || (|s| > 0 && r[0] == s[0]))
  {
    if s == [] then [x]
    else if LessEq(x, s[0]) then
      ConsSorted(x, s);
      [x] + s
    else
      SortedTail(s);
      var rest := Insert(x, s[1..]);
      LessEqTotal(x, s[0]);
      ConsSorted(s[0], rest);
      assert multiset([s[0]] + rest) == multiset(s) + multiset{x} by {
        assert s == [s[0]] + s[1..];
      }
      [s[0]] + rest
  }

  /** A name that comes before the head of a sorted sequence can be put in front of it. */
  lemma ConsSorted(h: string, t: seq<string>)
    requires Sorted(t)
    requires t != [] ==> LessEq(h, t[0])
    ensures Sorted([h] + t)
  {
    var r := [h] + t;
    forall i | 0 < i < |r|
      ensures LessEq(r[i - 1], r[i])
    {
      if i > 1 {
        assert r[i - 1] == t[i - 2] && r[i] == t[i - 1];
      }
    }
  }

  /** `sorted`: the names in order, as a rearrangement of the input. */
  function SortNames(s: seq<string>): (r: seq<string>)
    ensures Sorted(r)
    ensures multiset(r) == multiset(s)
  {
    if s == [] then []
    else
      assert s == s[..|s| - 1] + [s[|s| - 1]];
      Insert(s[|s| - 1], SortNames(s[..|s| - 1]))
  }

  /** The names of the entries that are regular files with a supported suffix, in directory order. */
  function SupportedFiles(entries: seq<Entry>): (r: seq<string>)
    ensures forall x :: x in r <==> exists e :: e in entries && e.isFile && IsSupported(e.name) && e.name == x
  {
    if entries == [] then []
    else
      var rest := SupportedFiles(entries[..|entries| - 1]);
      var e := entries[|entries| - 1];
      assert forall f :: f in entries <==> f in entries[..|entries| - 1] || f == e;
      if e.isFile && IsSupported(e.name) then rest + [e.name] else rest
  }

  /** The files `main` works through, in the order it works through them. */
  function Candidates(entries: seq<Entry>): (r: seq<string>)
    ensures Sorted(r)
    ensures multiset(r) == multiset(SupportedFiles(entries))
    ensures forall x :: x in r <==> exists e :: e in entries && e.isFile && IsSupported(e.name) && e.name == x
  {
    var files := SupportedFiles(entries);
    var r := SortNames(files);
    assert forall x :: x in r <==> x in files by {
      forall x
        ensures x in r <==> x in files
      {
        assert x in r <==> x in multiset(r);
        assert x in files <==> x in multiset(files);
      }
    }
    r
  }

  /** A sorted arrangement of given names is unique: the order of the candidates is fully determined. */
  lemma {:induction false} SortedArrangementUnique(a: seq<string>, b: seq<string>)
    requires Sorted(a) && Sorted(b) && multiset(a) == multiset(b)
    ensures a == b
  {
    if a == [] {
      assert |b| == |multiset(b)| == 0;
    } else {
      assert b != [] by { assert a[0] in multiset(b); }
      assert a[0] == b[0] by {
        assert a[0] in multiset(b) && b[0] in multiset(a);
        SortedFirstIsLeast(a, b[0]);
        SortedFirstIsLeast(b, a[0]);
        LessEqAntisymmetric(a[0], b[0]);
      }
      assert multiset(a[1..]) == multiset(b[1..]) by {
        TailMultiset(a);
        TailMultiset(b);
      }
      SortedTail(a);
      SortedTail(b);
      SortedArrangementUnique(a[1..], b[1..]);
      assert a == [a[0]] + a[1..] && b == [b[0]] + b[1..];
    }
  }

  /** Dropping the first name keeps a sequence sorted. */
  lemma SortedTail(a: seq<string>)
    requires a != [] && Sorted(a)
    ensures Sorted(a[1..])
  {
    forall i | 0 < i < |a| - 1
      ensures LessEq(a[1..][i - 1], a[1..][i])
    {
      assert a[1..][i - 1] == a[i] && a[1..][i] == a[i + 1];
    }
  }

  /** Dropping the first name removes exactly one copy of it from the multiset. */
  lemma TailMultiset(a: seq<string>)
    requires a != []
    ensures multiset(a[1..]) == multiset(a) - multiset{a[0]}
  {
    assert a == [a[0]] + a[1..];
  }

  /** The first name of a sorted sequence comes before every name in it. */
  lemma {:induction false} SortedFirstIsLeast(s: seq<string>, x: string)
    requires Sorted(s) && x in s
    ensures LessEq(s[0], x)
  {
    if s[0] != x {
      assert x in s[1..];
      SortedFirstIsLeast(s[1..], x);
      LessEqTransitive(s[0], s[1], x);
    } else {
      LessEqReflexive(x);
    }
  }

  lemma {:induction false} LessEqReflexive(a: string)
    ensures LessEq(a, a)
  {
    if |a| > 0 { LessEqReflexive(a[1..]); }
  }

  lemma {:induction false} LessEqTransitive(a: string, b: string, c: string)
    requires LessEq(a, b) && LessEq(b, c)
    ensures LessEq(a, c)
  {
    if |a| > 0 && |b| > 0 && |c| > 0 && a[0] == b[0] && b[0] == c[0] {
      LessEqTransitive(a[1..], b[1..], c[1..]);
    }
  }
}
