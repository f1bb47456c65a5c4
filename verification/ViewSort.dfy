/** Sorting a cascade's front by its view, largest first. */
module ViewSort {
  import opened GraphTheory

  /** The front lists exactly the viewed addresses. */
  ghost predicate Lists(front: seq<Address>, view: map<Address, int>) {
    forall x :: x in front <==> x in view
  }

  lemma ListsNext(front: seq<Address>, view: map<Address, int>, x: Address, count: int)
    requires Lists(front, view)
    ensures Lists(front + [x], view[x := count])
  {
  }

  ghost predicate Viewed(front: seq<Address>, view: map<Address, int>) {
    forall x | x in front :: x in view
  }

  /** Descending by view; nothing is promised about the order of equal views. */
  ghost predicate SortedByView(front: seq<Address>, view: map<Address, int>)
    requires Viewed(front, view)
  {
    forall i, j | 0 <= i < j < |front| :: view[front[i]] >= view[front[j]]
  }

  function Position(front: seq<Address>, view: map<Address, int>, x: Address): (k: nat)
    requires x in view && Viewed(front, view) && SortedByView(front, view)
    ensures k <= |front|
    ensures forall i | 0 <= i < k :: view[front[i]] >= view[x]
    ensures forall i | k <= i < |front| :: view[front[i]] < view[x]
  {
    var n := |front| - 1;
    if front == [] || view[front[n]] >= view[x] then |front| else Position(front[..n], view, x)
  }

  function Insert(front: seq<Address>, view: map<Address, int>, x: Address): (r: seq<Address>)
    requires x in view && Viewed(front, view) && SortedByView(front, view)
    ensures Viewed(r, view) && SortedByView(r, view)
  {
    var k := Position(front, view, x);
    front[..k] + [x] + front[k..]
  }

  lemma InsertAdds(front: seq<Address>, view: map<Address, int>, x: Address)
    requires x in view && Viewed(front, view) && SortedByView(front, view)
    ensures multiset(Insert(front, view, x)) == multiset(front) + multiset{x}
  {
    var k := Position(front, view, x);
    assert front == front[..k] + front[k..];
  }

  function SortByView(front: seq<Address>, view: map<Address, int>): (r: seq<Address>)
    requires Viewed(front, view)
    ensures Viewed(r, view) && SortedByView(r, view)
  {
    if front == [] then []
    else Insert(SortByView(front[..|front| - 1], view), view, front[|front| - 1])
  }

  lemma {:induction false} SortPermutes(front: seq<Address>, view: map<Address, int>)
    requires Viewed(front, view)
    ensures multiset(SortByView(front, view)) == multiset(front)
  {
    if front != [] {
      var n := |front| - 1;
      SortPermutes(front[..n], view);
      InsertAdds(SortByView(front[..n], view), view, front[n]);
      assert front == front[..n] + [front[n]];
    }
  }

  method Sort(front: seq<Address>, view: map<Address, int>) returns (sorted: seq<Address>)
    requires Viewed(front, view)
    ensures multiset(sorted) == multiset(front)
    ensures Viewed(sorted, view) && SortedByView(sorted, view)
  {
    SortPermutes(front, view);
    sorted := SortByView(front, view);
  }

  function Pop(front: seq<Address>, index: nat): (rest: seq<Address>)
    requires index < |front|
    ensures |rest| == |front| - 1 && forall j | 0 <= j < index :: rest[j] == front[j]
  {
    front[..index] + front[index + 1..]
  }

  lemma PopEffect(front: seq<Address>, index: nat)
    requires index < |front|
    ensures forall x | x in Pop(front, index) :: x in front
    ensures forall x | x in front && x != front[index] :: x in Pop(front, index)
  {
    assert front == front[..index] + [front[index]] + front[index + 1..];
  }
}
