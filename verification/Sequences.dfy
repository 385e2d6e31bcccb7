/** Facts about sequences that several components share. */
module Sequences {
  import opened Bits

  lemma ConcatAssoc<T>(a: seq<T>, b: seq<T>, c: seq<T>)
    ensures (a + b) + c == a + (b + c)
  {
  }

  lemma ConcatTail<T>(a: seq<T>, b: seq<T>)
    requires a != []
    ensures (a + b)[0] == a[0] && (a + b)[1..] == a[1..] + b
  {
  }

  function Flatten<T>(s: seq<seq<T>>): seq<T>
  {
    if s == [] then [] else s[0] + Flatten(s[1..])
  }

  lemma FlattenTake<T>(s: seq<seq<T>>, n: nat)
    requires 0 < n <= |s|
    ensures Flatten(s[..n]) == s[0] + Flatten(s[1..][..n - 1])
  {
    assert s[..n][0] == s[0] && s[..n][1..] == s[1..][..n - 1];
  }

  lemma {:induction false} FlattenAppend<T>(s: seq<seq<T>>, x: seq<T>)
    ensures Flatten(s + [x]) == Flatten(s) + x
  {
    if s == [] {
      assert [] + [x] == [x];
      assert Flatten([x]) == x + Flatten([]) == x;
    } else {
      FlattenAppend(s[1..], x);
      assert (s + [x])[1..] == s[1..] + [x];
    }
  }

  lemma {:induction false} FlattenSize<T>(s: seq<seq<T>>, size: nat)
    requires forall m :: 0 <= m < |s| ==> |s[m]| == size
    ensures |Flatten(s)| == |s| * size
  {
    if s != [] {
      FlattenSize(s[1..], size);
      MulDistributes(|s| - 1, 1, size);
    }
  }

  /** Where element j of part m comes out, when all parts are of one size. */
  lemma {:induction false} FlattenAt<T>(s: seq<seq<T>>, size: nat, m: nat, j: nat)
    requires (forall k :: 0 <= k < |s| ==> |s[k]| == size) && m < |s| && j < size
    ensures m * size + j < |Flatten(s)| && Flatten(s)[m * size + j] == s[m][j]
  {
    if m > 0 {
      FlattenAt(s[1..], size, m - 1, j);
      MulDistributes(m - 1, 1, size);
    }
  }

  ghost predicate Distinct<T(!new)>(s: seq<T>)
  {
    forall i, j :: 0 <= i < j < |s| ==> s[i] != s[j]
  }

  lemma DistinctTail<T(!new)>(s: seq<T>)
    requires s != [] && Distinct(s)
    ensures Distinct(s[1..]) && s[0] !in s[1..] && s == [s[0]] + s[1..]
  {
  }

  lemma DistinctCons<T(!new)>(x: T, s: seq<T>)
    requires Distinct(s) && x !in s
    ensures Distinct([x] + s)
  {
  }

  lemma DistinctSnoc<T(!new)>(s: seq<T>, x: T)
    requires Distinct(s) && x !in s
    ensures Distinct(s + [x])
  {
  }

  lemma DistinctConcat<T(!new)>(a: seq<T>, b: seq<T>)
    requires Distinct(a) && Distinct(b) && forall x :: x in a ==> x !in b
    ensures Distinct(a + b)
  {
    forall i, j | 0 <= i < j < |a + b| ensures (a + b)[i] != (a + b)[j] {
      assert i < |a| ==> (a + b)[i] in a;
    }
  }

  lemma DistinctParts<T(!new)>(a: seq<T>, b: seq<T>)
    requires Distinct(a + b)
    ensures Distinct(a) && Distinct(b) && forall x :: x in a ==> x !in b
  {
    assert a == (a + b)[..|a|] && b == (a + b)[|a|..];
    forall x | x in a ensures x !in b {
      var i :| 0 <= i < |a| && a[i] == x;
      assert (a + b)[i] == x;
      assert forall j :: 0 <= j < |b| ==> b[j] == (a + b)[|a| + j];
    }
  }

  ghost function SetOf<T(!new)>(s: seq<T>): set<T>
  {
    set x | x in s
  }

  /** A sequence has no more different elements than elements. */
  lemma {:induction false} SetOfBound<T(!new)>(s: seq<T>)
    ensures |SetOf(s)| <= |s|
  {
    if s == [] {
      assert SetOf(s) == {};
    } else {
      SetOfBound(s[1..]);
      assert SetOf(s) == {s[0]} + SetOf(s[1..]);
    }
  }

  lemma SubsetSize<T>(a: set<T>, b: set<T>)
    requires a <= b
    ensures |a| <= |b| && (|a| == |b| ==> a == b)
  {
    assert b == a + (b - a);
    assert a !! (b - a);
  }

  lemma WithoutOne<T(!new)>(s: seq<T>, i: nat, j: nat)
    requires i < j < |s| && s[i] == s[j]
    ensures SetOf(s[..j] + s[j + 1..]) == SetOf(s)
  {
    var rest := s[..j] + s[j + 1..];
    forall x | x in s ensures x in rest {
      var k :| 0 <= k < |s| && s[k] == x;
      if k < j {
        assert rest[k] == x;
      } else if k > j {
        assert rest[k - 1] == x;
      } else {
        assert rest[i] == x;
      }
    }
  }

  /** A sequence that holds every element of a set as large as itself holds each exactly once, and
      nothing else. */
  lemma HoldsEach<T(!new)>(s: seq<T>, elements: set<T>)
    requires |s| <= |elements| && forall x :: x in elements ==> x in s
    ensures Distinct(s) && forall x :: x in s <==> x in elements
  {
    SetOfBound(s);
    SubsetSize(elements, SetOf(s));
    forall i, j | 0 <= i < j < |s| ensures s[i] != s[j] {
      if s[i] == s[j] {
        WithoutOne(s, i, j);
        SetOfBound(s[..j] + s[j + 1..]);
      }
    }
  }
}
