/**
 * The list surgery of the drag handler: `todo_ids.pop(start_index)` followed
 * by `todo_ids.insert(target_index, dragged_id)`, with Python's list
 * semantics.
 */
module ListMove {
  import opened Records

  /** `s.pop(i)` for an index in range: `s` without its element at `i`. */
  function Pop(s: seq<int>, i: nat): (r: seq<int>)
    requires i < |s|
    ensures |r| == |s| - 1
    ensures forall j :: 0 <= j < i ==> r[j] == s[j]
    ensures forall j :: i <= j < |r| ==> r[j] == s[j + 1]
  {
    s[..i] + s[i + 1..]
  }

  /**
   * `s.insert(i, x)` for a non-negative index: `x` goes before the element at
   * `i`, or at the end when `i` is past the end.
   */
  function Insert(s: seq<int>, i: nat, x: int): (r: seq<int>)
    ensures |r| == |s| + 1
    ensures var at := if i < |s| then i else |s|;
      r[at] == x &&
      (forall j :: 0 <= j < at ==> r[j] == s[j]) &&
      (forall j :: at < j < |r| ==> r[j] == s[j - 1])
  {
    var at := if i < |s| then i else |s|;
    s[..at] + [x] + s[at..]
  }

  /** Moving the element at `from` so that it ends up at position `to`. */
  function MoveItem(s: seq<int>, from: nat, to: nat): (r: seq<int>)
    requires from < |s|
    ensures |r| == |s|
  {
    Insert(Pop(s, from), to, s[from])
  }

  /**
   * An independent description of the move: the element lands at `to`, the
   * elements strictly between the two positions shift by one towards `from`,
   * and every other element stays where it was.
   */
  lemma MoveItemAt(s: seq<int>, from: nat, to: nat, i: nat)
    requires from < |s| && to < |s| && i < |s|
    ensures MoveItem(s, from, to)[i] ==
      if i == to then s[from]
      else if from < to && from <= i < to then s[i + 1]
      else if to < from && to < i <= from then s[i - 1]
      else s[i]
  {
    var p := Pop(s, from);
    assert MoveItem(s, from, to) == Insert(p, to, s[from]);
  }

  /** Moving is a permutation. */
  lemma MovePermutes(s: seq<int>, from: nat, to: nat)
    requires from < |s|
    ensures multiset(MoveItem(s, from, to)) == multiset(s)
  {
    var p := Pop(s, from);
    var at := if to < |p| then to else |p|;
    assert s == s[..from] + [s[from]] + s[from + 1..];
    assert p[..at] + p[at..] == p;
    calc {
      multiset(MoveItem(s, from, to));
      multiset(p[..at] + [s[from]] + p[at..]);
      multiset(p[..at]) + multiset{s[from]} + multiset(p[at..]);
      multiset(p) + multiset{s[from]};
      multiset(s[..from]) + multiset(s[from + 1..]) + multiset{s[from]};
      multiset(s);
    }
  }

  /** Moving keeps every element and brings in nothing new. */
  lemma MoveMembers(s: seq<int>, from: nat, to: nat)
    requires from < |s|
    ensures forall x :: x in MoveItem(s, from, to) <==> x in s
  {
    MovePermutes(s, from, to);
    forall x ensures x in MoveItem(s, from, to) <==> x in s {
      assert x in MoveItem(s, from, to) <==> x in multiset(MoveItem(s, from, to));
      assert x in s <==> x in multiset(s);
    }
  }

  /** Moving a list without repetition gives a list without repetition. */
  lemma MoveNoDup(s: seq<int>, from: nat, to: nat)
    requires from < |s| && NoDup(s)
    ensures NoDup(MoveItem(s, from, to))
  {
    var r := MoveItem(s, from, to);
    var p := Pop(s, from);
    var at := if to < |p| then to else |p|;
    // Each position of r comes from a distinct position of s.
    var src := seq(|r|, j requires 0 <= j < |r| =>
      if j == at then from
      else if j < at then (if j < from then j else j + 1)
      else (if j - 1 < from then j - 1 else j));
    forall j | 0 <= j < |r| ensures 0 <= src[j] < |s| && r[j] == s[src[j]] {
    }
    forall a, b | 0 <= a < b < |r| ensures r[a] != r[b] {
      assert src[a] != src[b];
    }
  }

  /** The other elements keep their relative order: lifting the moved one out again gives `Pop(s, from)`. */
  lemma MoveKeepsOthers(s: seq<int>, from: nat, to: nat)
    requires from < |s| && to < |s|
    ensures MoveItem(s, from, to)[to] == s[from]
    ensures Pop(MoveItem(s, from, to), to) == Pop(s, from)
  {
    var p := Pop(s, from);
    assert Pop(Insert(p, to, s[from]), to) == p;
  }

  /** Dragging back undoes a drag. */
  lemma MoveRoundTrip(s: seq<int>, from: nat, to: nat)
    requires from < |s| && to < |s|
    ensures MoveItem(MoveItem(s, from, to), to, from) == s
  {
    var r := MoveItem(s, from, to);
    MoveKeepsOthers(s, from, to);
    var back := Insert(Pop(r, to), from, r[to]);
    assert back == Insert(Pop(s, from), from, s[from]);
    assert back == s;
  }

  /** Moving an element onto its own position changes nothing. */
  lemma MoveInPlace(s: seq<int>, i: nat)
    requires i < |s|
    ensures MoveItem(s, i, i) == s
  {
    assert MoveItem(s, i, i) == s[..i] + [s[i]] + s[i + 1..];
  }
}
