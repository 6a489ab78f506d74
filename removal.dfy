/** Removal by value from a list, as Python's list.remove does it, and why a batch of
    such removals, applied in any order, amounts to a filter of the list. */
module ListRemoval {
  import opened BookmarkTree
  import opened Pruning

  /** The position of the first element equal to x. */
  function IndexOf<T(==)>(s: seq<T>, x: T): (i: nat)
    requires x in s
    ensures i < |s| && s[i] == x && x !in s[..i]
  {
    if s[0] == x then 0
    else
      assert s == [s[0]] + s[1..];
      var j := IndexOf(s[1..], x);
      assert s[..j + 1] == [s[0]] + s[1..][..j];
      1 + j
  }

  /** list.remove(x): the list without its first element equal to x, or None for the
      ValueError raised when no element is equal to x. */
  function RemoveFirst<T(==)>(s: seq<T>, x: T): (r: Option<seq<T>>)
    ensures r.None? <==> x !in s
    ensures r.Some? ==> |r.value| == |s| - 1 && multiset(r.value) == multiset(s) - multiset{x}
    ensures r.Some? ==> exists i :: 0 <= i < |s| && s[i] == x && x !in s[..i] && r.value == s[..i] + s[i + 1..]
  {
    if x in s then
      var i := IndexOf(s, x);
      assert s == s[..i] + [x] + s[i + 1..];
      Some(s[..i] + s[i + 1..])
    else None
  }

  lemma RemoveFirstCons<T>(head: T, rest: seq<T>, x: T)
    requires x in [head] + rest
    ensures head == x ==> RemoveFirst([head] + rest, x) == Some(rest)
    ensures head != x ==> RemoveFirst([head] + rest, x) == Some([head] + RemoveFirst(rest, x).value)
  {
    var s := [head] + rest;
    assert s[0] == head && s[1..] == rest;
    if head == x {
      assert IndexOf(s, x) == 0;
      assert s[..0] + s[1..] == rest;
    } else {
      assert x in rest;
      var j := IndexOf(rest, x);
      assert IndexOf(s, x) == 1 + j;
      assert s[..1 + j] == [head] + rest[..j];
      assert s[1 + j + 1..] == rest[j + 1..];
      assert RemoveFirst(rest, x).value == rest[..j] + rest[j + 1..];
      assert s[..1 + j] + s[1 + j + 1..] == [head] + (rest[..j] + rest[j + 1..]);
    }
  }

  /** The list with, for every value x, its first m[x] occurrences removed. */
  function DropFirst<T(==)>(s: seq<T>, m: multiset<T>): seq<T> {
    if s == [] then []
    else if s[0] in m then DropFirst(s[1..], m - multiset{s[0]})
    else [s[0]] + DropFirst(s[1..], m)
  }

  lemma {:induction false} DropNothing<T>(s: seq<T>)
    ensures DropFirst(s, multiset{}) == s
    decreases s
  {
    if s != [] {
      DropNothing(s[1..]);
    }
  }

  /** One more removal of x, while occurrences of x remain, removes the next one. */
  lemma {:induction false} RemoveAfterDrop<T>(s: seq<T>, m: multiset<T>, x: T)
    requires m[x] < multiset(s)[x]
    ensures RemoveFirst(DropFirst(s, m), x) == Some(DropFirst(s, m + multiset{x}))
    decreases s
  {
    assert s != [];
    assert s == [s[0]] + s[1..];
    var head, tail := s[0], s[1..];
    assert multiset(s)[x] == multiset(tail)[x] + if head == x then 1 else 0;
    if head == x {
      assert DropFirst(s, m + multiset{x}) == DropFirst(tail, m) by {
        assert (m + multiset{x}) - multiset{x} == m;
      }
      if x in m {
        assert DropFirst(s, m) == DropFirst(tail, m - multiset{x});
        assert (m - multiset{x}) + multiset{x} == m;
        RemoveAfterDrop(tail, m - multiset{x}, x);
      } else {
        assert DropFirst(s, m) == [x] + DropFirst(tail, m);
        RemoveFirstCons(x, DropFirst(tail, m), x);
      }
    } else if head in m {
      assert DropFirst(s, m) == DropFirst(tail, m - multiset{head});
      assert DropFirst(s, m + multiset{x}) == DropFirst(tail, (m + multiset{x}) - multiset{head});
      assert (m - multiset{head}) + multiset{x} == (m + multiset{x}) - multiset{head};
      RemoveAfterDrop(tail, m - multiset{head}, x);
    } else {
      assert DropFirst(s, m) == [head] + DropFirst(tail, m);
      assert DropFirst(s, m + multiset{x}) == [head] + DropFirst(tail, m + multiset{x});
      RemoveAfterDrop(tail, m, x);
      RemoveFirstCons(head, DropFirst(tail, m), x);
    }
  }

  /** Removing every dropped element of a level, once per occurrence, leaves the
      level's filter. */
  lemma {:induction false} DroppingTheDoomedSifts(s: seq<Node>, keep: Node -> bool)
    ensures DropFirst(s, Doomed(s, keep)) == Sift(s, keep)
    decreases s
  {
    if s != [] {
      DroppingTheDoomedSifts(s[1..], keep);
      if Dropped(s[0], keep) {
        assert Doomed(s, keep) - multiset{s[0]} == Doomed(s[1..], keep);
      } else {
        DoomedAreDropped(s, keep);
      }
    }
  }

  /** One check of a batch completes: the batch loses that node, and when the node is
      dropped, removing it from the level is the next removal of its value. */
  lemma CompleteCheck(level: seq<Node>, removed: multiset<Node>, pending: seq<Node>, j: nat, keep: Node -> bool)
    requires j < |pending|
    requires forall k :: 0 <= k < |pending| ==> pending[k].Url?
    requires removed + Doomed(pending, keep) == Doomed(level, keep)
    ensures var node, rest := pending[j], pending[..j] + pending[j + 1..];
            var removed' := if Dropped(node, keep) then removed + multiset{node} else removed;
            && (forall k :: 0 <= k < |rest| ==> rest[k].Url?)
            && removed' + Doomed(rest, keep) == Doomed(level, keep)
            && (Dropped(node, keep) ==> RemoveFirst(DropFirst(level, removed), node) == Some(DropFirst(level, removed')))
            && (!Dropped(node, keep) ==> keep(node))
  {
    var node, rest := pending[j], pending[..j] + pending[j + 1..];
    DoomedWithout(pending, j, keep);
    assert forall k :: 0 <= k < |rest| ==> rest[k] == if k < j then pending[k] else pending[k + 1];
    if Dropped(node, keep) {
      DoomedAreDropped(level, keep);
      assert removed[node] < Doomed(level, keep)[node];
      RemoveAfterDrop(level, removed, node);
    }
  }
}
