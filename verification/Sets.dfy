/** Finite sets and their sizes. */
module Sets {
  lemma {:induction false} SubsetSize<T>(a: set<T>, b: set<T>)
    requires a <= b
    ensures |a| <= |b|
    decreases |a|
  {
    if a != {} {
      var x :| x in a;
      SubsetSize(a - {x}, b - {x});
    }
  }

  /** A set has subsets of every size up to its own. */
  lemma {:induction false} SubsetOfSize<T>(s: set<T>, n: nat) returns (r: set<T>)
    requires n <= |s|
    ensures r <= s && |r| == n
    decreases |s|
  {
    if n == |s| {
      r := s;
    } else {
      var x :| x in s;
      r := SubsetOfSize(s - {x}, n);
    }
  }

  /** The elements of a set in some order. */
  lemma {:induction false} Enumerate<T>(s: set<T>) returns (r: seq<T>)
    ensures |r| == |s| && (forall x :: x in r <==> x in s)
    ensures forall i, j :: 0 <= i < j < |r| ==> r[i] != r[j]
    decreases |s|
  {
    if s == {} {
      r := [];
    } else {
      var x :| x in s;
      r := Enumerate(s - {x});
      r := r + [x];
    }
  }

  ghost function Elements<T>(s: seq<T>): set<T> {
    set x | x in s
  }

  /** What two sequences have in common. */
  ghost function Common<T>(s: seq<T>, t: seq<T>): set<T> {
    set x | x in s && x in t
  }

  lemma {:induction false} ElementsSize<T>(s: seq<T>)
    ensures |Elements(s)| <= |s|
    ensures (forall i, j :: 0 <= i < j < |s| ==> s[i] != s[j]) ==> |Elements(s)| == |s|
    decreases |s|
  {
    if |s| == 0 {
      assert Elements(s) == {};
    } else {
      var n := |s| - 1;
      ElementsSize(s[..n]);
      assert s == s[..n] + [s[n]];
      assert Elements(s) == Elements(s[..n]) + {s[n]};
    }
  }

  /** There is always a number that a set does not have. */
  lemma {:induction false} Outside(s: set<nat>) returns (v: nat)
    ensures forall x :: x in s ==> x < v
    decreases |s|
  {
    if s == {} {
      v := 0;
    } else {
      var x :| x in s;
      var w := Outside(s - {x});
      v := if x < w then w else x + 1;
      assert forall y :: y in s ==> y == x || y in s - {x};
    }
  }

  /** What part of a set lies inside another. */
  lemma Parted<T>(s: set<T>, o: set<T>)
    ensures |s| == |s * o| + |s - o|
  {
    assert s == (s * o) + (s - o);
  }

  /** A large part of a set has at least what is left of `o` in it. */
  lemma LargePart<T>(part: set<T>, whole: set<T>, o: set<T>)
    requires part <= whole
    ensures |part| + |whole * o| <= |part * o| + |whole|
  {
    Parted(part, o);
    Parted(whole, o);
    SubsetSize(part - o, whole - o);
  }
}
