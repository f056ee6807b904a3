/** Iterating over several ranges as if they were one (backend/utility/SimpleRange.h). */
module CompoundRange {

  /** A pair of iterators into one container: the current position and the end. */
  datatype Cursor<T> = Cursor(data: seq<T>, first: nat, second: nat) {
    predicate InBounds() {
      first <= second <= |data|
    }

    function Rest(): seq<T>
      requires InBounds()
    {
      data[first..second]
    }
  }

  ghost predicate AllInBounds<T>(cursors: seq<Cursor<T>>) {
    forall k :: 0 <= k < |cursors| ==> cursors[k].InBounds()
  }

  /** What a list of ranges holds, one range after the other. */
  ghost function Concatenation<T>(ranges: seq<Cursor<T>>): seq<T>
    requires AllInBounds(ranges)
  {
    if ranges == [] then [] else ranges[0].Rest() + Concatenation(ranges[1..])
  }

  // The same for a stack, whose top is the last element
  ghost function Ahead<T>(stack: seq<Cursor<T>>): seq<T>
    requires AllInBounds(stack)
  {
    if stack == [] then [] else stack[|stack| - 1].Rest() + Ahead(stack[..|stack| - 1])
  }

  function Reversed<T>(s: seq<T>): seq<T> {
    seq(|s|, k requires 0 <= k < |s| => s[|s| - 1 - k])
  }

  lemma {:induction false} AheadOfReversed<T>(ranges: seq<Cursor<T>>)
    requires AllInBounds(ranges)
    ensures Ahead(Reversed(ranges)) == Concatenation(ranges)
  {
    if ranges == [] {
    } else {
      AheadOfReversed(ranges[1..]);
      assert Reversed(ranges)[..|ranges| - 1] == Reversed(ranges[1..]);
    }
  }

  class CompoundIterator<T> {
    var iters: seq<Cursor<T>>

    /** From ranges given as arguments: copied, then reversed in place. */
    constructor FromRanges(ranges: seq<Cursor<T>>)
      requires AllInBounds(ranges)
      ensures Valid() && Contents() == Concatenation(ranges) && iters == Trimmed(Reversed(ranges))
    {
      iters := ranges;
      new;
      var i, j := 0, |iters|;
      while i + 1 < j
        invariant 0 <= i <= j <= |iters| == |ranges| && j == |iters| - i
        invariant forall k :: 0 <= k < i || j <= k < |iters| ==> iters[k] == ranges[|ranges| - 1 - k]
        invariant forall k :: i <= k < j ==> iters[k] == ranges[k]
      {
        j := j - 1;
        iters := iters[i := iters[j]][j := iters[i]];
        i := i + 1;
      }
      assert iters == Reversed(ranges);
      AheadOfReversed(ranges);
      PopEmpty();
    }

    /** From a vector of ranges, read backwards. */
    constructor FromVector(ranges: seq<Cursor<T>>)
      requires AllInBounds(ranges)
      ensures Valid() && Contents() == Concatenation(ranges) && iters == Trimmed(Reversed(ranges))
    {
      iters := [];
      new;
      var k := |ranges|;
      while k > 0
        invariant 0 <= k <= |ranges| && |iters| == |ranges| - k
        invariant forall m :: 0 <= m < |iters| ==> iters[m] == ranges[|ranges| - 1 - m]
      {
        k := k - 1;
        iters := iters + [ranges[k]];
      }
      assert iters == Reversed(ranges);
      AheadOfReversed(ranges);
      PopEmpty();
    }

    /** The stack is empty or its top range has an element. */
    ghost predicate Valid()
      reads this
    {
      && AllInBounds(iters)
      && (iters == [] || iters[|iters| - 1].Rest() != [])
    }

    // What is still to be visited
    ghost function Contents(): seq<T>
      reads this
      requires AllInBounds(iters)
    {
      Ahead(iters)
    }

    method PopEmpty()
      requires AllInBounds(iters)
      modifies this
      ensures Valid() && Contents() == old(Contents()) && iters == Trimmed(old(iters))
    {
      while iters != [] && iters[|iters| - 1].first == iters[|iters| - 1].second
        invariant AllInBounds(iters) && Ahead(iters) == old(Contents())
        invariant Trimmed(iters) == Trimmed(old(iters))
        decreases |iters|
      {
        iters := iters[..|iters| - 1];
      }
    }

    /** operator* */
    method Get() returns (value: T)
      requires Valid() && Contents() != []
      ensures value == Contents()[0]
    {
      var top := iters[|iters| - 1];
      value := top.data[top.first];
    }

    /** operator++ */
    method Increment()
      requires Valid() && Contents() != []
      modifies this
      ensures Valid() && Contents() == old(Contents())[1..]
    {
      var n := |iters| - 1;
      var top := iters[n];
      var below := iters[..n];
      iters := iters[n := top.(first := top.first + 1)];
      assert iters[..n] == below;
      assert iters[n].Rest() == top.Rest()[1..];
      PopEmpty();
    }

    /** operator++(int): the copy stays where the iterator was. */
    method PostIncrement() returns (copy: CompoundIterator<T>)
      requires Valid() && Contents() != []
      modifies this
      ensures fresh(copy) && copy.Valid() && copy.Contents() == old(Contents())
      ensures Valid() && Contents() == old(Contents())[1..]
    {
      copy := new CompoundIterator<T>.Copy(this);
      Increment();
    }

    constructor Copy(other: CompoundIterator<T>)
      ensures iters == other.iters
    {
      iters := other.iters;
    }

    /** operator==: two iterators are equal exactly if both are at the end, so one that is not differs even from
        itself. */
    method Equals(other: CompoundIterator<T>) returns (equal: bool)
      requires Valid() && other.Valid()
      ensures equal <==> Contents() == [] && other.Contents() == []
    {
      equal := iters == [] && other.iters == [];
    }
  }

  // A stack without the empty ranges on its top
  ghost function Trimmed<T>(stack: seq<Cursor<T>>): seq<Cursor<T>> {
    if stack != [] && stack[|stack| - 1].first == stack[|stack| - 1].second then Trimmed(stack[..|stack| - 1])
    else stack
  }

  lemma Shift<T>(visited: seq<T>, rest: seq<T>, value: T)
    requires rest != [] && rest[0] == value
    ensures visited + rest == (visited + [value]) + rest[1..]
  {
  }

  /** The loop over a compound range: from begin() to end() it visits the concatenation, in order. */
  method Visit<T>(ranges: seq<Cursor<T>>) returns (visited: seq<T>)
    requires AllInBounds(ranges)
    ensures visited == Concatenation(ranges)
  {
    var it := new CompoundIterator<T>.FromVector(ranges);
    var end := new CompoundIterator<T>.FromRanges([]);
    visited := [];
    assert Trimmed(Reversed<Cursor<T>>([])) == [];
    var atEnd := it.Equals(end);
    while !atEnd
      invariant it.Valid() && end.iters == [] && it != end
      invariant visited + it.Contents() == Concatenation(ranges)
      invariant atEnd <==> it.Contents() == []
      decreases |it.Contents()|
    {
      var value := it.Get();
      ghost var rest := it.Contents();
      it.Increment();
      Shift(visited, rest, value);
      visited := visited + [value];
      atEnd := it.Equals(end);
    }
  }
}
