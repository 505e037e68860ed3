/** The two list containers of linkedlist.py. */
module LinkedList {
  import opened Nodes
  import opened ListSpec

  /** No node belongs to both chains: every list owns the nodes it creates. */
  ghost predicate Disjoint<T>(a: seq<Node<T>>, b: seq<Node<T>>)
  {
    forall i, j :: 0 <= i < |a| && 0 <= j < |b| ==> a[i] != b[j]
  }

  /** A forward chain of nodes with a cached size; non-negative indices only. */
  class SinglyLinkedList<T(==)> {
    var head: Node?<T>
    var tail: Node?<T>
    var size: int
    /** The one-element "shape" tuple, kept equal to `[size]`. */
    var shape: seq<int>

    /** The values in list order, and the nodes that hold them. */
    ghost var Contents: seq<T>
    ghost var Repr: seq<Node<T>>

    /** The chain from `head` holds exactly `Contents`, node by node, and ends at `tail`.
        When the chain is empty `tail` may still point at a node popped earlier. */
    ghost predicate Linked()
      reads this, Repr
    {
      |Repr| == |Contents|
      && (forall i :: 0 <= i < |Repr| ==> Repr[i].value == Contents[i])
      && (forall i :: 0 <= i < |Repr| - 1 ==> Repr[i].next == Repr[i + 1])
      && Distinct(Repr)
      && head == (if Repr == [] then null else Repr[0])
      && (Repr != [] ==> tail == Repr[|Repr| - 1] && tail.next == null)
    }

    /** The chain plus the size and shape bookkeeping. */
    ghost predicate Valid()
      reads this, Repr
    {
      Linked() && size == |Contents| && shape == [size]
    }

    /** An empty list. The linkedlist.py constructor with a source is modelled by
        `FromSequence`, `FromSingly` and `FromDoubly`. */
    constructor ()
      ensures Valid() && Contents == [] && Repr == []
    {
      size := 0;
      shape := [0];
      head := null;
      tail := null;
      Contents := [];
      Repr := [];
    }

    /** The linkedlist.py constructor with an iterable source: start empty and
        append each element in order. */
    constructor FromSequence(source: seq<T>)
      ensures Valid() && Contents == source && fresh(Repr)
    {
      size := 0;
      shape := [0];
      head := null;
      tail := null;
      Contents := [];
      Repr := [];
      new;
      Extend(source);
      assert Repr[0..] == Repr;
    }

    /** The linkedlist.py constructor with a singly linked source: a copy made of
        fresh nodes, read with `get(i)`; the source is left as it was. */
    constructor FromSingly(other: SinglyLinkedList<T>)
      requires other.Valid()
      ensures Valid() && Contents == other.Contents && fresh(Repr)
      ensures other.Valid() && other.Contents == old(other.Contents)
    {
      size := 0;
      shape := [0];
      head := null;
      tail := null;
      Contents := [];
      Repr := [];
      new;
      assert other != this;
      ExtendFromSingly(other);
    }

    /** The linkedlist.py constructor with a doubly linked source: a copy made of
        fresh nodes, read with `get(i)`; the source is left as it was. */
    constructor FromDoubly(other: DoublyLinkedList<T>)
      requires other.Valid()
      ensures Valid() && Contents == other.Contents && fresh(Repr)
      ensures other.Valid() && other.Contents == old(other.Contents)
    {
      size := 0;
      shape := [0];
      head := null;
      tail := null;
      Contents := [];
      Repr := [];
      new;
      ExtendFromDoubly(other);
    }

    /** `len(list)` and `list.size()`. */
    method Size() returns (n: int)
      requires Valid()
      ensures n == |Contents|
    {
      n := size;
    }

    /** The walk shared by `get`, `insert` and `pop`: from the head, follow `next`
        while counting until the count reaches `target`. */
    method NodeAt(target: int) returns (current: Node<T>)
      requires Valid() && 0 <= target < |Contents|
      ensures current == Repr[target]
    {
      var count := 0;
      var node := head;
      while node != null
        invariant 0 <= count <= target
        invariant node == Repr[count]
        decreases |Repr| - count
      {
        if count == target {
          break;
        }
        node := node.next;
        count := count + 1;
      }
      current := node;
    }

    /** `get(index)`: the value at `index`; any index outside `[0, size)` raises
        IndexError. */
    method Get(index: int) returns (r: Result<T>)
      requires Valid()
      ensures 0 <= index < |Contents| ==> r == Ok(Contents[index])
      ensures (index < 0 || index >= |Contents|) ==> r == IndexError
    {
      if index < 0 || index >= size {
        return IndexError;
      }
      var current := NodeAt(index);
      return Ok(current.value);
    }

    /** `index(x)`: the position of the first node holding `x`; ValueError when no
        node holds it, the empty list included. */
    method Index(x: T) returns (r: Result<nat>)
      requires Valid()
      ensures r.Ok? <==> x in Contents
      ensures r.Ok? ==> IsFirstIndex(Contents, x, r.value)
      ensures !r.Ok? ==> r == ValueError
    {
      var index := 0;
      var current := head;
      while current != null
        invariant 0 <= index <= |Repr|
        invariant current == (if index < |Repr| then Repr[index] else null)
        invariant x !in Contents[..index]
        decreases |Repr| - index
      {
        if x == current.value {
          break;
        }
        current := current.next;
        index := index + 1;
      }
      if head == null || index == size {
        return ValueError;
      }
      return Ok(index);
    }

    /** `append(x)`: a fresh node after the tail. On an empty chain the size is set
        to 1 rather than incremented, so a stale size (left by `Reverse`) is repaired. */
    method Append(x: T)
      requires Valid() || (Linked() && Contents == [])
      modifies this, if Repr == [] then {} else {Repr[|Repr| - 1]}
      ensures Valid()
      ensures Contents == old(Contents) + [x]
      ensures Repr == old(Repr) + [Repr[|Repr| - 1]] && fresh(Repr[|Repr| - 1])
    {
      var node := new Node(x);
      if head == null {
        head := node;
        tail := node;
        size := 1;
        shape := [size];
      } else {
        tail.next := node;
        tail := node;
        size := size + 1;
        shape := [size];
      }
      Contents := Contents + [x];
      Repr := Repr + [node];
    }

    /** `insert(index, x)`: an index at or below 0 inserts at the front, one at or
        beyond the size appends, and any other splices after the node at `index - 1`. */
    method Insert(index: int, x: T)
      requires Valid()
      modifies this, Repr
      ensures Valid()
      ensures index <= 0 ==> Contents == [x] + old(Contents)
      ensures index >= old(|Contents|) ==> Contents == old(Contents) + [x]
      ensures 0 < index < old(|Contents|) ==> Contents == InsertAt(old(Contents), index, x)
      ensures var p := if index <= 0 then 0 else if index >= old(|Contents|) then old(|Contents|) else index;
        p < |Repr| && Repr == InsertAt(old(Repr), p, Repr[p]) && fresh(Repr[p])
    {
      if index <= 0 {
        InsertFront(x);
      } else if index >= size {
        Append(x);
        assert Repr == InsertAt(old(Repr), |old(Repr)|, Repr[|old(Repr)|]);
      } else {
        var current := NodeAt(index - 1);
        LinkAfter(current, index - 1, x);
      }
    }

    /** The `index <= 0` branch of `insert`: on an empty chain a fresh node becomes
        head and tail and the size is set to 1; otherwise it goes before the head. */
    method InsertFront(x: T)
      requires Valid()
      modifies this
      ensures Valid()
      ensures Contents == [x] + old(Contents)
      ensures Repr == [Repr[0]] + old(Repr) && fresh(Repr[0])
    {
      if head == null {
        var node := new Node(x);
        head := node;
        tail := node;
        size := 1;
        shape := [size];
        Contents := [x];
        Repr := [node];
      } else {
        LinkBeforeHead(x);
      }
    }

    /** A fresh node linked to the old head becomes the new head. */
    method LinkBeforeHead(x: T)
      requires Valid() && Repr != []
      modifies this
      ensures Valid()
      ensures Contents == [x] + old(Contents)
      ensures Repr == [Repr[0]] + old(Repr) && fresh(Repr[0])
    {
      ghost var R := Repr;
      var node := new Node(x);
      node.next := head;
      head := node;
      size := size + 1;
      shape := [size];
      Contents := [x] + Contents;
      Repr := [node] + Repr;
      forall i | 0 < i < |Repr| - 1 ensures Repr[i].next == Repr[i + 1] {
        assert Repr[i] == R[i - 1] && Repr[i + 1] == R[i];
      }
      DistinctPrepend(R, node);
    }

    /** The interior branch of `insert`: a fresh node goes after `current` (at
        position `k`), which is not the tail, so the tail does not move. */
    method LinkAfter(current: Node<T>, ghost k: int, x: T)
      requires Valid() && 0 <= k < |Repr| - 1 && current == Repr[k]
      modifies this, current
      ensures Valid()
      ensures Contents == InsertAt(old(Contents), k + 1, x)
      ensures Repr == InsertAt(old(Repr), k + 1, Repr[k + 1]) && fresh(Repr[k + 1])
    {
      ghost var R := Repr;
      var node := new Node(x);
      node.next := current.next;
      current.next := node;
      size := size + 1;
      shape := [size];
      Contents := InsertAt(Contents, k + 1, x);
      Repr := InsertAt(Repr, k + 1, node);
      forall i | 0 <= i < |Repr| - 1 ensures Repr[i].next == Repr[i + 1] {
        if i < k {
          assert Repr[i] == R[i] && R[i] != current;
        } else if i > k + 1 {
          assert Repr[i] == R[i - 1] && R[i - 1] != current;
        }
      }
      DistinctInsertAt(R, k + 1, node);
    }

    /** `pop(index)`: with no index the last value is removed; an index outside
        `[0, size)` or an empty list raises IndexError and changes nothing. Removing the
        first node moves the head; removing the last moves the tail and clears its link. */
    method Pop(index: Option<int>) returns (r: Result<T>)
      requires Valid()
      modifies this, Repr
      ensures Valid()
      ensures old(|Contents|) == 0 ==> r == IndexError
      ensures index.Some? && (index.value < 0 || index.value >= old(|Contents|)) ==> r == IndexError
      ensures r == IndexError ==> unchanged(this) && unchanged(Repr)
      ensures old(|Contents|) > 0 && index.None? ==>
        var last := old(|Contents|) - 1;
        r == Ok(old(Contents)[last]) && Contents == old(Contents)[..last] && Repr == old(Repr)[..last]
      ensures index.Some? && 0 <= index.value < old(|Contents|) ==>
        r == Ok(old(Contents)[index.value])
        && Contents == Without(old(Contents), index.value) && Repr == Without(old(Repr), index.value)
    {
      if head == null {
        return IndexError;
      }
      if index.None? {
        if size == 1 {
          r := PopOnlyNode();
          return;
        }
        var current := NodeAt(size - 2);
        r := UnlinkAfter(current, size - 1);
        return;
      }
      var i := index.value;
      if i < 0 || i >= size {
        return IndexError;
      }
      if i == 0 {
        r := PopHead();
        WithoutEnds(old(Contents));
        WithoutEnds(old(Repr));
        return;
      }
      var current := NodeAt(i - 1);
      r := UnlinkAfter(current, i);
    }

    /** The `size == 1` branch of `pop()`: the head is cleared and the size set to 0;
        the tail still points at the popped node. */
    method PopOnlyNode() returns (r: Result<T>)
      requires Valid() && |Contents| == 1
      modifies this
      ensures Valid()
      ensures r == Ok(old(Contents)[0])
      ensures Contents == [] && Repr == []
    {
      var value := head.value;
      head := null;
      size := 0;
      shape := [size];
      Contents := [];
      Repr := [];
      return Ok(value);
    }

    /** The `pop(0)` branch: the head moves to the second node (none when the list had
        one node, whose stale tail is then left in place). */
    method PopHead() returns (r: Result<T>)
      requires Valid() && |Contents| >= 1
      modifies this
      ensures Valid()
      ensures r == Ok(old(Contents)[0])
      ensures Contents == old(Contents)[1..] && Repr == old(Repr)[1..]
    {
      var value := head.value;
      head := head.next;
      size := size - 1;
      shape := [size];
      Contents := Contents[1..];
      Repr := Repr[1..];
      return Ok(value);
    }

    /** Removal of the node at `index > 0`, given its predecessor `current`: the last
        node is dropped by making `current` the tail with no `next`; any other is
        bypassed by relinking `current` to its successor. */
    method UnlinkAfter(current: Node<T>, index: int) returns (r: Result<T>)
      requires Valid() && 0 < index < |Contents| && current == Repr[index - 1]
      modifies this, current
      ensures Valid()
      ensures r == Ok(old(Contents)[index])
      ensures Contents == Without(old(Contents), index) && Repr == Without(old(Repr), index)
    {
      ghost var R := Repr;
      assert current.next == R[index];
      var value := current.next.value;
      if index == size - 1 {
        tail := current;
        tail.next := null;
      } else {
        current.next := current.next.next;
      }
      size := size - 1;
      shape := [size];
      Contents := Without(Contents, index);
      Repr := Without(Repr, index);
      DistinctWithout(R, index);
      forall i | 0 <= i < |Repr| - 1 ensures Repr[i].next == Repr[i + 1] {
        if i < index - 1 {
          assert Repr[i] == R[i] && R[i] != current;
        } else if i >= index {
          assert Repr[i] == R[i + 1] && R[i + 1] != current;
        }
      }
      return Ok(value);
    }

    /** `remove(x)`: `pop(index(x))`, so only the first occurrence goes; an absent
        value raises ValueError and leaves the list as it was. */
    method Remove(x: T) returns (r: Result<()>)
      requires Valid()
      modifies this, Repr
      ensures Valid()
      ensures r == if x in old(Contents) then Ok(()) else ValueError
      ensures Contents == RemoveFirst(old(Contents), x)
      ensures !r.Ok? ==> unchanged(this) && unchanged(Repr)
      ensures forall j :: 0 <= j < |Repr| ==> Repr[j] in old(Repr)
    {
      var found := Index(x);
      if !found.Ok? {
        RemoveFirstAbsent(Contents, x);
        return ValueError;
      }
      var popped := Pop(Some(found.value));
      WithoutFirstIndex(old(Contents), x, found.value);
      return Ok(());
    }

    /** `extend(iterable)`: append every element of `source` in order. */
    method Extend(source: seq<T>)
      requires Valid()
      modifies this, Repr
      ensures Valid()
      ensures Contents == old(Contents) + source
      ensures |Repr| == |old(Repr)| + |source| && Repr[..|old(Repr)|] == old(Repr)
      ensures fresh(Repr[|old(Repr)|..])
    {
      for k := 0 to |source|
        invariant Valid()
        invariant Contents == old(Contents) + source[..k]
        invariant |Repr| == |old(Repr)| + k && Repr[..|old(Repr)|] == old(Repr)
        invariant fresh(Repr[|old(Repr)|..])
        invariant forall j :: 0 <= j < |Repr| ==> Repr[j] in old(Repr) || fresh(Repr[j])
      {
        Append(source[k]);
      }
    }

    /** `extend(list)` with a singly linked source: `append(other.get(i))` for
        every `i` below the source's length taken before the first append, so
        extending a list by itself doubles it. */
    method ExtendFromSingly(other: SinglyLinkedList<T>)
      requires Valid() && other.Valid()
      requires other == this || Disjoint(other.Repr, Repr)
      modifies this, Repr
      ensures Valid()
      ensures Contents == old(Contents) + old(other.Contents)
      ensures other != this ==> other.Valid() && other.Contents == old(other.Contents)
      ensures |Repr| == |old(Repr)| + |old(other.Contents)|
      ensures forall j :: 0 <= j < |old(Repr)| ==> Repr[j] == old(Repr)[j]
      ensures forall j :: |old(Repr)| <= j < |Repr| ==> fresh(Repr[j])
    {
      ghost var source, sourceRepr := other.Contents, other.Repr;
      var n := other.Size();
      for i := 0 to n
        invariant Valid()
        invariant Contents == old(Contents) + source[..i]
        invariant |Repr| == |old(Repr)| + i
        invariant forall j :: 0 <= j < |old(Repr)| ==> Repr[j] == old(Repr)[j]
        invariant forall j :: |old(Repr)| <= j < |Repr| ==> fresh(Repr[j])
        invariant other == this ==> source == old(Contents)
        invariant other != this ==> other.Valid() && other.Contents == source && other.Repr == sourceRepr
      {
        AppendFromSingly(other, i, source, old(Contents));
      }
    }

    /** One step of `extend(list)` with a singly linked source:
        `append(other.get(i))`. The node that `append` relinks is not one of the
        source's nodes. */
    method AppendFromSingly(other: SinglyLinkedList<T>, i: int, ghost source: seq<T>, ghost base: seq<T>)
      requires Valid() && other.Valid() && 0 <= i < |source|
      requires Contents == base + source[..i]
      requires other == this ==> source == base
      requires other != this ==> other.Contents == source
      requires other == this || Repr == [] || Repr[|Repr| - 1] !in other.Repr
      modifies this, if Repr == [] then {} else {Repr[|Repr| - 1]}
      ensures Valid()
      ensures Contents == base + source[..i + 1]
      ensures Repr == old(Repr) + [Repr[|Repr| - 1]] && fresh(Repr[|Repr| - 1])
      ensures other != this ==> other.Valid() && other.Contents == old(other.Contents) && other.Repr == old(other.Repr)
    {
      var v := other.Get(i);
      Append(v.value);
      PrefixStep(source, i);
    }

    /** `extend(list)` with a doubly linked source: `append(other.get(i))` for
        every `i` below the source's length taken before the first append. */
    method ExtendFromDoubly(other: DoublyLinkedList<T>)
      requires Valid() && other.Valid()
      requires Disjoint(other.Repr, Repr)
      modifies this, Repr
      ensures Valid()
      ensures Contents == old(Contents) + old(other.Contents)
      ensures other.Valid() && other.Contents == old(other.Contents)
      ensures |Repr| == |old(Repr)| + |old(other.Contents)|
      ensures forall j :: 0 <= j < |old(Repr)| ==> Repr[j] == old(Repr)[j]
      ensures forall j :: |old(Repr)| <= j < |Repr| ==> fresh(Repr[j])
    {
      ghost var source, sourceRepr := other.Contents, other.Repr;
      var n := other.Size();
      for i := 0 to n
        invariant Valid()
        invariant Contents == old(Contents) + source[..i]
        invariant |Repr| == |old(Repr)| + i
        invariant forall j :: 0 <= j < |old(Repr)| ==> Repr[j] == old(Repr)[j]
        invariant forall j :: |old(Repr)| <= j < |Repr| ==> fresh(Repr[j])
        invariant other.Valid() && other.Contents == source && other.Repr == sourceRepr
      {
        AppendFromDoubly(other, i, source, old(Contents));
      }
    }

    /** One step of `extend(list)` with a doubly linked source:
        `append(other.get(i))`. The node that `append` relinks is not one of the
        source's nodes. */
    method AppendFromDoubly(other: DoublyLinkedList<T>, i: int, ghost source: seq<T>, ghost base: seq<T>)
      requires Valid() && other.Valid() && 0 <= i < |source|
      requires Contents == base + source[..i]
      requires other.Contents == source
      requires Repr == [] || Repr[|Repr| - 1] !in other.Repr
      modifies this, if Repr == [] then {} else {Repr[|Repr| - 1]}
      ensures Valid()
      ensures Contents == base + source[..i + 1]
      ensures Repr == old(Repr) + [Repr[|Repr| - 1]] && fresh(Repr[|Repr| - 1])
      ensures other.Valid() && other.Contents == old(other.Contents) && other.Repr == old(other.Repr)
    {
      var v := other.Get(i);
      Append(v.value);
      PrefixStep(source, i);
    }

    /** `reverse()`: copy the values out with `get`, reverse the copy, drop the chain
        by clearing the head, and rebuild it with `append`. The size field is never
        reset here; the first `append` on the cleared chain sets it to 1. */
    method Reverse()
      requires Valid()
      modifies this, Repr
      ensures Valid()
      ensures Contents == Reversed(old(Contents))
      ensures |Repr| == |old(Repr)| && fresh(Repr)
    {
      var values: seq<T> := [];
      var n := Size();
      for i := 0 to n
        invariant Valid() && Contents == old(Contents) && n == |Contents|
        invariant values == Contents[..i]
      {
        var v := Get(i);
        values := values + [v.value];
      }
      assert values == old(Contents);
      values := Reversed(values);
      head := null;
      Contents := [];
      Repr := [];
      for i := 0 to |values|
        invariant Linked() && Contents == values[..i] && fresh(Repr)
        invariant i == 0 ==> size == n && shape == [n]
        invariant i > 0 ==> Valid()
      {
        Append(values[i]);
      }
      assert values[..|values|] == values;
    }
  }

  /** A chain of nodes linked both ways, with a cached size; `get`, `insert` and
      `pop` also take Python-style negative indices. */
  class DoublyLinkedList<T(==)> {
    var head: Node?<T>
    var tail: Node?<T>
    var size: int
    /** The one-element "shape" tuple, kept equal to `[size]`. */
    var shape: seq<int>

    /** The values in list order, and the nodes that hold them. */
    ghost var Contents: seq<T>
    ghost var Repr: seq<Node<T>>

    /** The chain from `head` holds exactly `Contents`; each `next` link is mirrored by
        the following node's `prev` link; the ends are `head` (no `prev`) and `tail`
        (no `next`). When the chain is empty `tail` may still point at a popped node. */
    ghost predicate Linked()
      reads this, Repr
    {
      |Repr| == |Contents|
      && (forall i :: 0 <= i < |Repr| ==> Repr[i].value == Contents[i])
      && (forall i :: 0 <= i < |Repr| - 1 ==> Repr[i].next == Repr[i + 1])
      && (forall i :: 0 < i < |Repr| ==> Repr[i].prev == Repr[i - 1])
      && Distinct(Repr)
      && head == (if Repr == [] then null else Repr[0])
      && (Repr != [] ==> head.prev == null && tail == Repr[|Repr| - 1] && tail.next == null)
    }

    /** The chain plus the size and shape bookkeeping. */
    ghost predicate Valid()
      reads this, Repr
    {
      Linked() && size == |Contents| && shape == [size]
    }

    /** An empty list. The linkedlist.py constructor with a source is modelled by
        `FromSequence`, `FromSingly` and `FromDoubly`. */
    constructor ()
      ensures Valid() && Contents == [] && Repr == []
    {
      size := 0;
      shape := [0];
      head := null;
      tail := null;
      Contents := [];
      Repr := [];
    }

    /** The linkedlist.py constructor with an iterable source: start empty and
        append each element in order. */
    constructor FromSequence(source: seq<T>)
      ensures Valid() && Contents == source && fresh(Repr)
    {
      size := 0;
      shape := [0];
      head := null;
      tail := null;
      Contents := [];
      Repr := [];
      new;
      Extend(source);
      assert Repr[0..] == Repr;
    }

    /** The linkedlist.py constructor with a singly linked source: a copy made of
        fresh nodes, read with `get(i)`; the source is left as it was. */
    constructor FromSingly(other: SinglyLinkedList<T>)
      requires other.Valid()
      ensures Valid() && Contents == other.Contents && fresh(Repr)
      ensures other.Valid() && other.Contents == old(other.Contents)
    {
      size := 0;
      shape := [0];
      head := null;
      tail := null;
      Contents := [];
      Repr := [];
      new;
      ExtendFromSingly(other);
    }

    /** The linkedlist.py constructor with a doubly linked source: a copy made of
        fresh nodes, read with `get(i)`; the source is left as it was. */
    constructor FromDoubly(other: DoublyLinkedList<T>)
      requires other.Valid()
      ensures Valid() && Contents == other.Contents && fresh(Repr)
      ensures other.Valid() && other.Contents == old(other.Contents)
    {
      size := 0;
      shape := [0];
      head := null;
      tail := null;
      Contents := [];
      Repr := [];
      new;
      assert other != this;
      ExtendFromDoubly(other);
    }

    /** `len(list)` and `list.size()`. */
    method Size() returns (n: int)
      requires Valid()
      ensures n == |Contents|
    {
      n := size;
    }

    /** The forward walk of `get`, `insert` and `pop`: from the head, follow `next`
        while counting up until the count reaches `target`. */
    method NodeAt(target: int) returns (current: Node<T>)
      requires Valid() && 0 <= target < |Contents|
      ensures current == Repr[target]
    {
      var count := 0;
      var node := head;
      while node != null
        invariant 0 <= count <= target
        invariant node == Repr[count]
        decreases |Repr| - count
      {
        if count == target {
          break;
        }
        node := node.next;
        count := count + 1;
      }
      current := node;
    }

    /** The backward walk of `get`, `insert` and `pop`: from the tail (count -1),
        follow `prev` while counting down until the count reaches the negative `target`. */
    method NodeFromTail(target: int) returns (current: Node<T>)
      requires Valid() && -|Contents| <= target < 0
      ensures current == Repr[|Contents| + target]
    {
      var count := -1;
      var node := tail;
      while node != null
        invariant target <= count <= -1
        invariant node == Repr[|Repr| + count]
        decreases |Repr| + count
      {
        if count == target {
          break;
        }
        node := node.prev;
        count := count - 1;
      }
      current := node;
    }

    /** `get(index)`: valid indices are exactly `-size <= index < size`; a negative
        one counts from the end and is walked to from the tail. */
    method Get(index: int) returns (r: Result<T>)
      requires Valid()
      ensures 0 <= index < |Contents| ==> r == Ok(Contents[index])
      ensures index < 0 && Abs(index) <= |Contents| ==> r == Ok(Contents[|Contents| + index])
      ensures (Abs(index) > |Contents| || index >= |Contents|) ==> r == IndexError
    {
      if Abs(index) > size || index >= size {
        return IndexError;
      }
      if index < 0 {
        var current := NodeFromTail(index);
        return Ok(current.value);
      }
      var current := NodeAt(index);
      return Ok(current.value);
    }

    /** `index(x)`: the position of the first node holding `x`; ValueError when no
        node holds it, the empty list included. */
    method Index(x: T) returns (r: Result<nat>)
      requires Valid()
      ensures r.Ok? <==> x in Contents
      ensures r.Ok? ==> IsFirstIndex(Contents, x, r.value)
      ensures !r.Ok? ==> r == ValueError
    {
      var index := 0;
      var current := head;
      while current != null
        invariant 0 <= index <= |Repr|
        invariant current == (if index < |Repr| then Repr[index] else null)
        invariant x !in Contents[..index]
        decreases |Repr| - index
      {
        if x == current.value {
          break;
        }
        current := current.next;
        index := index + 1;
      }
      if head == null || index == size {
        return ValueError;
      }
      return Ok(index);
    }

    /** `append(x)`: a fresh node after the tail, linked back to it. */
    method Append(x: T)
      requires Valid()
      modifies this, if Repr == [] then {} else {Repr[|Repr| - 1]}
      ensures Valid()
      ensures Contents == old(Contents) + [x]
      ensures Repr == old(Repr) + [Repr[|Repr| - 1]] && fresh(Repr[|Repr| - 1])
    {
      var node := new Node(x);
      if head == null {
        head := node;
        tail := node;
        size := 1;
        shape := [size];
      } else {
        node.prev := tail;
        tail.next := node;
        tail := node;
        size := size + 1;
        shape := [size];
      }
      Contents := Contents + [x];
      Repr := Repr + [node];
    }

    /** `insert(index, x)`, with the semantics of Python's `list.insert`: a negative
        index at or beyond `-size` inserts at the front, any other negative index
        splices after the node reached by counting down to `index - 1` from the tail;
        0 inserts at the front, an index at or beyond the size appends, and any other
        splices after the node at `index - 1`. */
    method Insert(index: int, x: T)
      requires Valid()
      modifies this, Repr
      ensures Valid()
      ensures Contents == InsertAt(old(Contents), ListInsertPosition(old(|Contents|), index), x)
      ensures var p := ListInsertPosition(old(|Contents|), index);
        p < |Repr| && Repr == InsertAt(old(Repr), p, Repr[p]) && fresh(Repr[p])
    {
      if index < 0 {
        if Abs(index) >= size {
          InsertFront(x);
        } else {
          // linkedlist.py's `insert` re-checks for an empty chain here; with
          // |index| < size the chain has at least two nodes, so that branch is unreachable.
          var current := NodeFromTail(index - 1);
          LinkAfter(current, size + index - 1, x);
        }
      } else if index == 0 {
        InsertFront(x);
      } else if index >= size {
        Append(x);
        assert Repr == InsertAt(old(Repr), |old(Repr)|, Repr[|old(Repr)|]);
      } else {
        var current := NodeAt(index - 1);
        LinkAfter(current, index - 1, x);
      }
    }

    /** The front-insertion branches of `insert`: on an empty chain a fresh node
        becomes head and tail and the size is set to 1; otherwise it goes before the
        head. */
    method InsertFront(x: T)
      requires Valid()
      modifies this, if Repr == [] then {} else {Repr[0]}
      ensures Valid()
      ensures Contents == [x] + old(Contents)
      ensures Repr == [Repr[0]] + old(Repr) && fresh(Repr[0])
    {
      if head == null {
        var node := new Node(x);
        head := node;
        tail := node;
        size := 1;
        shape := [size];
        Contents := [x];
        Repr := [node];
      } else {
        LinkBeforeHead(x);
      }
    }

    /** A fresh node becomes the old head's `prev` and the new head. */
    method LinkBeforeHead(x: T)
      requires Valid() && Repr != []
      modifies this, Repr[0]
      ensures Valid()
      ensures Contents == [x] + old(Contents)
      ensures Repr == [Repr[0]] + old(Repr) && fresh(Repr[0])
    {
      ghost var R := Repr;
      var node := new Node(x);
      node.next := head;
      head.prev := node;
      head := node;
      size := size + 1;
      shape := [size];
      Contents := [x] + Contents;
      Repr := [node] + Repr;
      forall i | 0 < i < |Repr| - 1 ensures Repr[i].next == Repr[i + 1] {
        assert Repr[i] == R[i - 1] && Repr[i + 1] == R[i];
      }
      forall i | 1 < i < |Repr| ensures Repr[i].prev == Repr[i - 1] {
        assert Repr[i] == R[i - 1] && R[i - 1] != R[0];
      }
      DistinctPrepend(R, node);
    }

    /** The splice shared by both interior branches of `insert`: a fresh node goes
        between `current` (at position `k`) and its successor, linked both ways. */
    method LinkAfter(current: Node<T>, ghost k: int, x: T)
      requires Valid() && 0 <= k < |Repr| - 1 && current == Repr[k]
      modifies this, current, Repr[k + 1]
      ensures Valid()
      ensures Contents == InsertAt(old(Contents), k + 1, x)
      ensures Repr == InsertAt(old(Repr), k + 1, Repr[k + 1]) && fresh(Repr[k + 1])
    {
      ghost var R := Repr;
      var node := new Node(x);
      assert current.next == R[k + 1];
      node.next := current.next;
      current.next.prev := node;
      node.prev := current;
      current.next := node;
      size := size + 1;
      shape := [size];
      Contents := InsertAt(Contents, k + 1, x);
      Repr := InsertAt(Repr, k + 1, node);
      forall i | 0 <= i < |Repr| - 1 ensures Repr[i].next == Repr[i + 1] {
        if i < k {
          assert Repr[i] == R[i] && R[i] != current;
        } else if i > k + 1 {
          assert Repr[i] == R[i - 1] && R[i - 1] != current;
        }
      }
      forall i | 0 < i < |Repr| ensures Repr[i].prev == Repr[i - 1] {
        if i < k + 1 {
          assert Repr[i] == R[i] && R[i] != R[k + 1];
        } else if i > k + 2 {
          assert Repr[i] == R[i - 1] && R[i - 1] != current && R[i - 1] != R[k + 1];
        }
      }
      DistinctInsertAt(R, k + 1, node);
    }

    /** `pop(index)`, with the semantics of Python's `list.pop`: no index removes the
        last value; an index with `|index| > size`, or a non-negative one at or beyond
        the size, or any index on an empty list, raises IndexError and changes nothing.
        On a one-element list `pop(0)` reaches for the missing second node
        (`head.next.prev`) and raises AttributeError before changing anything, while
        `pop(-1)` first clears the tail and then fails on it, leaving a broken list;
        that call is excluded here. */
    method Pop(index: Option<int>) returns (r: Result<T>)
      requires Valid()
      requires !(|Contents| == 1 && index == Some(-1))
      modifies this, Repr
      ensures Valid()
      ensures old(|Contents|) == 0 ==> r == IndexError
      ensures index.Some? && (Abs(index.value) > old(|Contents|) || index.value >= old(|Contents|)) ==>
        r == IndexError
      ensures r == AttributeError <==> old(|Contents|) == 1 && index == Some(0)
      ensures !r.Ok? ==> unchanged(this) && unchanged(Repr)
      ensures old(|Contents|) > 0 && index.None? ==>
        var last := old(|Contents|) - 1;
        r == Ok(old(Contents)[last]) && Contents == old(Contents)[..last] && Repr == old(Repr)[..last]
      ensures index.Some? && 0 <= index.value < old(|Contents|) && old(|Contents|) >= 2 ==>
        r == Ok(old(Contents)[index.value])
        && Contents == Without(old(Contents), index.value) && Repr == Without(old(Repr), index.value)
      ensures index.Some? && index.value < 0 && Abs(index.value) <= old(|Contents|) ==>
        var p := old(|Contents|) + index.value;
        r == Ok(old(Contents)[p]) && Contents == Without(old(Contents), p) && Repr == Without(old(Repr), p)
    {
      if head == null {
        return IndexError;
      }
      if index.None? {
        if size == 1 {
          r := PopOnlyNode();
          return;
        }
        r := PopTail();
        return;
      }
      var i := index.value;
      if i < 0 {
        if Abs(i) > size {
          return IndexError;
        }
        r := PopBackward(i);
        return;
      }
      if i >= size {
        return IndexError;
      }
      if size == 1 {
        return AttributeError;
      }
      r := PopForward(i);
    }

    /** The in-range negative-index branch of `pop(index)`: `-1` drops the tail,
        `-size` the head, and any other index is reached from the tail and unlinked. */
    method PopBackward(index: int) returns (r: Result<T>)
      requires Valid() && -|Contents| <= index < 0 && |Contents| >= 2
      modifies this, Repr
      ensures Valid()
      ensures r == Ok(old(Contents)[|old(Contents)| + index])
      ensures Contents == Without(old(Contents), |old(Contents)| + index)
      ensures Repr == Without(old(Repr), |old(Repr)| + index)
    {
      ghost var p := size + index;
      if index == -1 {
        r := PopTail();
        WithoutEnds(old(Contents));
        WithoutEnds(old(Repr));
        assert p == |old(Contents)| - 1;
        return;
      }
      if Abs(index) == size {
        assert p == 0;
        r := PopHead();
        WithoutEnds(old(Contents));
        WithoutEnds(old(Repr));
        return;
      }
      var current := NodeFromTail(index);
      r := Unlink(current, size + index);
    }

    /** The in-range non-negative branch of `pop(index)`: `0` drops the head, `size - 1`
        the tail, and any other index is reached from the head and unlinked. */
    method PopForward(index: int) returns (r: Result<T>)
      requires Valid() && 0 <= index < |Contents| && |Contents| >= 2
      modifies this, Repr
      ensures Valid()
      ensures r == Ok(old(Contents)[index])
      ensures Contents == Without(old(Contents), index) && Repr == Without(old(Repr), index)
    {
      if index == 0 {
        r := PopHead();
        WithoutEnds(old(Contents));
        WithoutEnds(old(Repr));
        return;
      }
      if index == size - 1 {
        r := PopTail();
        WithoutEnds(old(Contents));
        WithoutEnds(old(Repr));
        return;
      }
      var current := NodeAt(index);
      r := Unlink(current, index);
    }

    /** The `size == 1` branch of `pop()`: the head is cleared and the size set to 0;
        the tail still points at the popped node. */
    method PopOnlyNode() returns (r: Result<T>)
      requires Valid() && |Contents| == 1
      modifies this
      ensures Valid()
      ensures r == Ok(old(Contents)[0])
      ensures Contents == [] && Repr == []
    {
      var value := head.value;
      head := null;
      size := 0;
      shape := [size];
      Contents := [];
      Repr := [];
      return Ok(value);
    }

    /** Removal of the last node (`pop()`, `pop(-1)`, `pop(size - 1)` on two or more
        nodes): the tail moves back one node and loses its `next` link. */
    method PopTail() returns (r: Result<T>)
      requires Valid() && |Contents| >= 2
      modifies this, Repr[|Repr| - 2]
      ensures Valid()
      ensures r == Ok(old(Contents)[|old(Contents)| - 1])
      ensures Contents == old(Contents)[..|old(Contents)| - 1] && Repr == old(Repr)[..|old(Repr)| - 1]
    {
      var value := tail.value;
      assert tail.prev == Repr[|Repr| - 2];
      tail := tail.prev;
      tail.next := null;
      size := size - 1;
      shape := [size];
      Contents := Contents[..size];
      Repr := Repr[..size];
      return Ok(value);
    }

    /** Removal of the first node (`pop(0)`, `pop(-size)` on two or more nodes): the
        second node loses its `prev` link and becomes the head. */
    method PopHead() returns (r: Result<T>)
      requires Valid() && |Contents| >= 2
      modifies this, Repr[1]
      ensures Valid()
      ensures r == Ok(old(Contents)[0])
      ensures Contents == old(Contents)[1..] && Repr == old(Repr)[1..]
    {
      var value := head.value;
      assert head.next == Repr[1];
      head.next.prev := null;
      head := head.next;
      size := size - 1;
      shape := [size];
      Contents := Contents[1..];
      Repr := Repr[1..];
      return Ok(value);
    }

    /** Removal of an interior node at position `k`: its two neighbours are linked to
        each other in both directions. */
    method Unlink(current: Node<T>, ghost k: int) returns (r: Result<T>)
      requires Valid() && 0 < k < |Repr| - 1 && current == Repr[k]
      modifies this, Repr[k - 1], Repr[k + 1]
      ensures Valid()
      ensures r == Ok(old(Contents)[k])
      ensures Contents == Without(old(Contents), k) && Repr == Without(old(Repr), k)
    {
      ghost var R := Repr;
      assert current.prev == R[k - 1] && current.next == R[k + 1];
      var value := current.value;
      current.prev.next := current.next;
      current.next.prev := current.prev;
      size := size - 1;
      shape := [size];
      Contents := Without(Contents, k);
      Repr := Without(Repr, k);
      DistinctWithout(R, k);
      forall i | 0 <= i < |Repr| - 1 ensures Repr[i].next == Repr[i + 1] {
        if i < k - 1 {
          assert Repr[i] == R[i] && R[i] != R[k - 1];
        } else if i >= k {
          assert Repr[i] == R[i + 1] && R[i + 1] != R[k - 1];
        }
      }
      forall i | 0 < i < |Repr| ensures Repr[i].prev == Repr[i - 1] {
        if i < k {
          assert Repr[i] == R[i] && R[i] != R[k + 1];
        } else if i > k {
          assert Repr[i] == R[i + 1] && R[i + 1] != R[k + 1];
        }
      }
      return Ok(value);
    }

    /** `remove(x)`: `pop(index(x))`, so only the first occurrence goes; an absent
        value raises ValueError and leaves the list as it was. Removing the only
        element becomes `pop(0)` on one node, which raises AttributeError. */
    method Remove(x: T) returns (r: Result<()>)
      requires Valid()
      modifies this, Repr
      ensures Valid()
      ensures old(Contents) == [x] ==> r == AttributeError && Contents == old(Contents)
      ensures old(Contents) != [x] ==> r == (if x in old(Contents) then Ok(()) else ValueError)
      ensures old(Contents) != [x] ==> Contents == RemoveFirst(old(Contents), x)
      ensures !r.Ok? ==> unchanged(this) && unchanged(Repr)
      ensures forall j :: 0 <= j < |Repr| ==> Repr[j] in old(Repr)
    {
      var found := Index(x);
      if !found.Ok? {
        RemoveFirstAbsent(Contents, x);
        return ValueError;
      }
      var popped := Pop(Some(found.value));
      if popped.AttributeError? {
        return AttributeError;
      }
      WithoutFirstIndex(old(Contents), x, found.value);
      return Ok(());
    }

    /** `extend(iterable)`: append every element of `source` in order. */
    method Extend(source: seq<T>)
      requires Valid()
      modifies this, Repr
      ensures Valid()
      ensures Contents == old(Contents) + source
      ensures |Repr| == |old(Repr)| + |source| && Repr[..|old(Repr)|] == old(Repr)
      ensures fresh(Repr[|old(Repr)|..])
    {
      for k := 0 to |source|
        invariant Valid()
        invariant Contents == old(Contents) + source[..k]
        invariant |Repr| == |old(Repr)| + k && Repr[..|old(Repr)|] == old(Repr)
        invariant fresh(Repr[|old(Repr)|..])
        invariant forall j :: 0 <= j < |Repr| ==> Repr[j] in old(Repr) || fresh(Repr[j])
      {
        Append(source[k]);
      }
    }

    /** `extend(list)` with a singly linked source: `append(other.get(i))` for
        every `i` below the source's length taken before the first append. */
    method ExtendFromSingly(other: SinglyLinkedList<T>)
      requires Valid() && other.Valid()
      requires Disjoint(other.Repr, Repr)
      modifies this, Repr
      ensures Valid()
      ensures Contents == old(Contents) + old(other.Contents)
      ensures other.Valid() && other.Contents == old(other.Contents)
      ensures |Repr| == |old(Repr)| + |old(other.Contents)|
      ensures forall j :: 0 <= j < |old(Repr)| ==> Repr[j] == old(Repr)[j]
      ensures forall j :: |old(Repr)| <= j < |Repr| ==> fresh(Repr[j])
    {
      ghost var source, sourceRepr := other.Contents, other.Repr;
      var n := other.Size();
      for i := 0 to n
        invariant Valid()
        invariant Contents == old(Contents) + source[..i]
        invariant |Repr| == |old(Repr)| + i
        invariant forall j :: 0 <= j < |old(Repr)| ==> Repr[j] == old(Repr)[j]
        invariant forall j :: |old(Repr)| <= j < |Repr| ==> fresh(Repr[j])
        invariant other.Valid() && other.Contents == source && other.Repr == sourceRepr
      {
        AppendFromSingly(other, i, source, old(Contents));
      }
    }

    /** One step of `extend(list)` with a singly linked source:
        `append(other.get(i))`. The node that `append` relinks is not one of the
        source's nodes. */
    method AppendFromSingly(other: SinglyLinkedList<T>, i: int, ghost source: seq<T>, ghost base: seq<T>)
      requires Valid() && other.Valid() && 0 <= i < |source|
      requires Contents == base + source[..i]
      requires other.Contents == source
      requires Repr == [] || Repr[|Repr| - 1] !in other.Repr
      modifies this, if Repr == [] then {} else {Repr[|Repr| - 1]}
      ensures Valid()
      ensures Contents == base + source[..i + 1]
      ensures Repr == old(Repr) + [Repr[|Repr| - 1]] && fresh(Repr[|Repr| - 1])
      ensures other.Valid() && other.Contents == old(other.Contents) && other.Repr == old(other.Repr)
    {
      var v := other.Get(i);
      Append(v.value);
      PrefixStep(source, i);
    }

    /** `extend(list)` with a doubly linked source: `append(other.get(i))` for
        every `i` below the source's length taken before the first append, so
        extending a list by itself doubles it. */
    method ExtendFromDoubly(other: DoublyLinkedList<T>)
      requires Valid() && other.Valid()
      requires other == this || Disjoint(other.Repr, Repr)
      modifies this, Repr
      ensures Valid()
      ensures Contents == old(Contents) + old(other.Contents)
      ensures other != this ==> other.Valid() && other.Contents == old(other.Contents)
      ensures |Repr| == |old(Repr)| + |old(other.Contents)|
      ensures forall j :: 0 <= j < |old(Repr)| ==> Repr[j] == old(Repr)[j]
      ensures forall j :: |old(Repr)| <= j < |Repr| ==> fresh(Repr[j])
    {
      ghost var source, sourceRepr := other.Contents, other.Repr;
      var n := other.Size();
      for i := 0 to n
        invariant Valid()
        invariant Contents == old(Contents) + source[..i]
        invariant |Repr| == |old(Repr)| + i
        invariant forall j :: 0 <= j < |old(Repr)| ==> Repr[j] == old(Repr)[j]
        invariant forall j :: |old(Repr)| <= j < |Repr| ==> fresh(Repr[j])
        invariant other == this ==> source == old(Contents)
        invariant other != this ==> other.Valid() && other.Contents == source && other.Repr == sourceRepr
      {
        AppendFromDoubly(other, i, source, old(Contents));
      }
    }

    /** One step of `extend(list)` with a doubly linked source:
        `append(other.get(i))`. The node that `append` relinks is not one of the
        source's nodes. */
    method AppendFromDoubly(other: DoublyLinkedList<T>, i: int, ghost source: seq<T>, ghost base: seq<T>)
      requires Valid() && other.Valid() && 0 <= i < |source|
      requires Contents == base + source[..i]
      requires other == this ==> source == base
      requires other != this ==> other.Contents == source
      requires other == this || Repr == [] || Repr[|Repr| - 1] !in other.Repr
      modifies this, if Repr == [] then {} else {Repr[|Repr| - 1]}
      ensures Valid()
      ensures Contents == base + source[..i + 1]
      ensures Repr == old(Repr) + [Repr[|Repr| - 1]] && fresh(Repr[|Repr| - 1])
      ensures other != this ==> other.Valid() && other.Contents == old(other.Contents) && other.Repr == old(other.Repr)
    {
      var v := other.Get(i);
      Append(v.value);
      PrefixStep(source, i);
    }

    /** `reverse()` in place: every node's `prev` and `next` are swapped, the old head
        becomes the tail and, when there are two or more nodes, the old tail (reached
        as the new `prev` of the last saved `prev`) becomes the head. No node is
        created or dropped. */
    method Reverse()
      requires Valid()
      modifies this, Repr
      ensures Valid()
      ensures Contents == Reversed(old(Contents))
      ensures Repr == Reversed(old(Repr))
      ensures tail == old(head)
    {
      ghost var R := Repr;
      ghost var n := |R|;
      var ptr := SwapLinks();
      // linkedlist.py's `reverse` sets the tail to the old head just before the
      // loop; the loop never reads it.
      tail := head;
      if ptr != null {
        head := ptr.prev;
      }
      ghost var S, V := Reversed(R), Reversed(old(Contents));
      forall i | 0 <= i < n ensures S[i] == R[n - 1 - i] && V[i] == old(Contents)[n - 1 - i] {
        ReversedAt(R, i);
        ReversedAt(old(Contents), i);
      }
      forall i | 0 <= i < n - 1 ensures S[i].next == S[i + 1] {
        assert old(R[n - 1 - i].prev) == R[n - 2 - i];
      }
      forall i | 0 < i < n ensures S[i].prev == S[i - 1] {
        assert old(R[n - 1 - i].next) == R[n - i];
      }
      DistinctReversed(R);
      Repr := S;
      Contents := V;
    }

    /** The loop of `reverse()`: from the head forward, each node's `prev` and `next`
        are swapped and the walk continues through the new `prev` (the old `next`).
        `ptr` ends as the last node's old `prev`: the second-to-last node, or null when
        there are fewer than two nodes. */
    method SwapLinks() returns (ptr: Node?<T>)
      requires Valid()
      modifies Repr
      ensures forall j :: 0 <= j < |Repr| ==>
        Repr[j].prev == old(Repr[j].next) && Repr[j].next == old(Repr[j].prev)
      ensures forall j :: 0 <= j < |Repr| ==> Repr[j].value == old(Repr[j].value)
      ensures ptr == (if |Repr| >= 2 then Repr[|Repr| - 2] else null)
    {
      ghost var n := |Repr|;
      ghost var k := 0;
      ptr := null;
      var current := head;
      while current != null
        invariant 0 <= k <= n
        invariant current == (if k < n then Repr[k] else null)
        invariant ptr == (if k >= 2 then Repr[k - 2] else null)
        invariant forall j :: 0 <= j < n ==> Repr[j].value == old(Repr[j].value)
        invariant forall j :: 0 <= j < k ==> Repr[j].prev == old(Repr[j].next) && Repr[j].next == old(Repr[j].prev)
        invariant forall j :: k <= j < n ==> Repr[j].prev == old(Repr[j].prev) && Repr[j].next == old(Repr[j].next)
        decreases n - k
      {
        ptr := current.prev;
        current.prev := current.next;
        current.next := ptr;
        current := current.prev;
        k := k + 1;
      }
    }
  }
}
