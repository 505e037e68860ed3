/** The abstract sequence operations the two linked lists are specified against,
    the outcomes their operations report, and the facts proved about them. */
module ListSpec {

  /** What an operation reports: a value, or the Python exception it raises. */
  datatype Result<T> = Ok(value: T) | IndexError | ValueError | AttributeError

  /** An optional argument (the index of `pop`, which may be omitted). */
  datatype Option<T> = None | Some(value: T)

  /** The absolute value, as Python's `abs` on an integer. */
  function Abs(i: int): (r: nat)
    ensures r == i || r == -i
  {
    if i < 0 then -i else i
  }

  /** `s` with the element at position `i` taken out. */
  function Without<T>(s: seq<T>, i: nat): (r: seq<T>)
    requires i < |s|
    ensures |r| == |s| - 1
    ensures forall k :: 0 <= k < i ==> r[k] == s[k]
    ensures forall k :: i <= k < |r| ==> r[k] == s[k + 1]
  {
    s[..i] + s[i + 1..]
  }

  /** Removing the first or the last position is dropping that end. */
  lemma WithoutEnds<T>(s: seq<T>)
    requires |s| > 0
    ensures Without(s, 0) == s[1..]
    ensures Without(s, |s| - 1) == s[..|s| - 1]
  {
  }

  /** `s` with `x` placed so that it ends up at position `i`. */
  function InsertAt<T>(s: seq<T>, i: nat, x: T): (r: seq<T>)
    requires i <= |s|
    ensures |r| == |s| + 1 && r[i] == x
    ensures forall k :: 0 <= k < i ==> r[k] == s[k]
    ensures forall k :: i < k < |r| ==> r[k] == s[k - 1]
  {
    s[..i] + [x] + s[i..]
  }

  /** Growing a prefix by one element: the step of every loop that copies a sequence. */
  lemma PrefixStep<T>(s: seq<T>, i: nat)
    requires i < |s|
    ensures s[..i + 1] == s[..i] + [s[i]]
  {
  }

  /** Inserting at a position and then removing from that position gives the sequence back. */
  lemma InsertThenRemove<T>(s: seq<T>, i: nat, x: T)
    requires i <= |s|
    ensures Without(InsertAt(s, i, x), i) == s
  {
    var t := Without(InsertAt(s, i, x), i);
    assert |t| == |s|;
    forall k | 0 <= k < |s| ensures t[k] == s[k] {
      if k >= i { assert t[k] == InsertAt(s, i, x)[k + 1]; }
    }
  }

  /** Removing an element and putting it back where it was gives the sequence back. */
  lemma RemoveThenInsert<T>(s: seq<T>, i: nat)
    requires i < |s|
    ensures InsertAt(Without(s, i), i, s[i]) == s
  {
    var t := InsertAt(Without(s, i), i, s[i]);
    assert |t| == |s|;
    forall k | 0 <= k < |s| ensures t[k] == s[k] {
      if k > i { assert t[k] == Without(s, i)[k - 1]; }
    }
  }

  /** The position at which Python's `list.insert(i, x)` puts `x` in a list of
      length `n`: a negative `i` counts from the end, and the result is clamped
      to the two ends. */
  function ListInsertPosition(n: nat, i: int): (p: nat)
    ensures p <= n
    ensures 0 <= i <= n ==> p == i
    ensures i < 0 && n + i >= 0 ==> p == n + i
    ensures n + i < 0 ==> p == 0
    ensures i > n ==> p == n
  {
    var j := if i < 0 then i + n else i;
    if j < 0 then 0 else if j > n then n else j
  }

  /** The elements of `s` in the opposite order. */
  function Reversed<T>(s: seq<T>): (r: seq<T>)
    ensures |r| == |s|
  {
    if s == [] then [] else Reversed(s[1..]) + [s[0]]
  }

  /** Position `k` of the reversal is position `|s| - 1 - k` of the original. */
  lemma {:induction false} ReversedAt<T>(s: seq<T>, k: nat)
    requires k < |s|
    ensures Reversed(s)[k] == s[|s| - 1 - k]
  {
    if k < |s| - 1 {
      ReversedAt(s[1..], k);
    }
  }

  /** Reversing twice restores the original order. */
  lemma ReversedTwice<T>(s: seq<T>)
    ensures Reversed(Reversed(s)) == s
  {
    var r := Reversed(s);
    forall k | 0 <= k < |s| ensures Reversed(r)[k] == s[k] {
      ReversedAt(r, k);
      ReversedAt(s, |s| - 1 - k);
    }
  }

  /** Reversal keeps every element and its multiplicity. */
  lemma {:induction false} ReversedPermutes<T>(s: seq<T>)
    ensures multiset(Reversed(s)) == multiset(s)
  {
    if s != [] {
      ReversedPermutes(s[1..]);
      assert s == [s[0]] + s[1..];
    }
  }

  /** No element occurs twice: the nodes of a chain are all different. */
  ghost predicate Distinct<T>(s: seq<T>)
  {
    forall i, j :: 0 <= i < j < |s| ==> s[i] != s[j]
  }

  /** Taking an element out keeps the others different. */
  lemma DistinctWithout<T>(s: seq<T>, i: nat)
    requires Distinct(s) && i < |s|
    ensures Distinct(Without(s, i))
  {
    var r := Without(s, i);
    forall a, b | 0 <= a < b < |r| ensures r[a] != r[b] {
      var a' := if a < i then a else a + 1;
      var b' := if b < i then b else b + 1;
      assert r[a] == s[a'] && r[b] == s[b'] && a' < b';
    }
  }

  /** A new element in front of a sequence without repeats keeps it without repeats. */
  lemma DistinctPrepend<T>(s: seq<T>, x: T)
    requires Distinct(s) && x !in s
    ensures Distinct([x] + s)
  {
    var r := [x] + s;
    forall a, b | 0 <= a < b < |r| ensures r[a] != r[b] {
      assert r[b] == s[b - 1];
      if a > 0 { assert r[a] == s[a - 1]; }
    }
  }

  /** Placing a new element keeps all elements different. */
  lemma DistinctInsertAt<T>(s: seq<T>, i: nat, x: T)
    requires Distinct(s) && i <= |s| && x !in s
    ensures Distinct(InsertAt(s, i, x))
  {
    var r := InsertAt(s, i, x);
    forall a, b | 0 <= a < b < |r| ensures r[a] != r[b] {
      if a != i && b != i {
        var a' := if a < i then a else a - 1;
        var b' := if b < i then b else b - 1;
        assert r[a] == s[a'] && r[b] == s[b'] && a' < b';
      } else if a == i {
        assert r[b] == s[b - 1];
      } else {
        assert r[a] == s[a];
      }
    }
  }

  /** Reversing keeps all elements different. */
  lemma DistinctReversed<T>(s: seq<T>)
    requires Distinct(s)
    ensures Distinct(Reversed(s))
  {
    var r := Reversed(s);
    forall a, b | 0 <= a < b < |r| ensures r[a] != r[b] {
      ReversedAt(s, a);
      ReversedAt(s, b);
    }
  }

  /** `i` is the position of the first occurrence of `x` in `s`. */
  ghost predicate IsFirstIndex<T>(s: seq<T>, x: T, i: nat)
  {
    i < |s| && s[i] == x && x !in s[..i]
  }

  /** A value has at most one first position. */
  lemma FirstIndexUnique<T>(s: seq<T>, x: T, i: nat, j: nat)
    requires IsFirstIndex(s, x, i) && IsFirstIndex(s, x, j)
    ensures i == j
  {
  }

  /** `s` without the first occurrence of `x`, or `s` itself when `x` does not occur:
      the reference meaning of Python's `list.remove`, defined element by element. */
  function RemoveFirst<T(==)>(s: seq<T>, x: T): (r: seq<T>)
    ensures |r| == if x in s then |s| - 1 else |s|
  {
    if s == [] then []
    else if s[0] == x then s[1..]
    else [s[0]] + RemoveFirst(s[1..], x)
  }

  /** Removing at the first index of `x` is removing the first occurrence of `x`. */
  lemma {:induction false} WithoutFirstIndex<T>(s: seq<T>, x: T, i: nat)
    requires IsFirstIndex(s, x, i)
    ensures Without(s, i) == RemoveFirst(s, x)
  {
    if i > 0 {
      assert s[1..][..i - 1] == s[1..i];
      WithoutFirstIndex(s[1..], x, i - 1);
      assert Without(s, i) == [s[0]] + Without(s[1..], i - 1);
    }
  }

  /** An absent value leaves the sequence as it is. */
  lemma {:induction false} RemoveFirstAbsent<T>(s: seq<T>, x: T)
    requires x !in s
    ensures RemoveFirst(s, x) == s
  {
    if s != [] {
      RemoveFirstAbsent(s[1..], x);
    }
  }

  /** Removing a present value takes out exactly one copy of it and nothing else. */
  lemma {:induction false} RemoveFirstCount<T>(s: seq<T>, x: T)
    ensures x in s ==> multiset(RemoveFirst(s, x)) == multiset(s) - multiset{x}
    ensures x in s ==> |RemoveFirst(s, x)| == |s| - 1
  {
    if s != [] {
      RemoveFirstCount(s[1..], x);
      assert s == [s[0]] + s[1..];
    }
  }
}
