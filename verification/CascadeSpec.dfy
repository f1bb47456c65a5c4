/**
 * What a deletion cascade deletes, independent of any order of work: the least set closed under the
 * reference-counting rule.
 */
module CascadeSpec {
  import opened Sums
  import opened GraphTheory

  /** The initial counts of the addresses a cascade starts from. */
  type Seeds = map<Address, int>

  /**
   * With everything in `s` deleted, `x` is unreferenced: a seed once the deletions have used up its
   * initial count, any other node once it has inbound references and all of them are deleted.
   */
  ghost predicate Ready(e: Edges, v: Seeds, x: Address, s: set<Address>) {
    if x in v then v[x] <= |Inbound(e, x) * s|
    else Inbound(e, x) != {} && Inbound(e, x) <= s
  }

  ghost predicate Closed(e: Edges, v: Seeds, s: set<Address>) {
    forall x {:trigger Ready(e, v, x, s)} :: Ready(e, v, x, s) ==> x in s
  }

  /** The least closed set. */
  ghost function Least(e: Edges, v: Seeds): set<Address> {
    set x | x in Nodes(e) + v.Keys && forall s | Closed(e, v, s) :: x in s
  }

  /** What deleting object `o` deletes. */
  ghost function Retained(e: Edges, o: Address): set<Address> {
    Least(e, map[o := 0])
  }

  lemma ReadyMonotone(e: Edges, v: Seeds, x: Address, s: set<Address>, t: set<Address>)
    requires s <= t && Ready(e, v, x, s)
    ensures Ready(e, v, x, t)
  {
    SubsetCard(Inbound(e, x) * s, Inbound(e, x) * t);
  }

  lemma LeastIsLeast(e: Edges, v: Seeds, s: set<Address>)
    requires Closed(e, v, s)
    ensures Least(e, v) <= s
  {
  }

  lemma LeastClosed(e: Edges, v: Seeds)
    ensures Closed(e, v, Least(e, v))
  {
    var l := Least(e, v);
    forall x | Ready(e, v, x, l) ensures x in l {
      if x !in v {
        var p :| p in Inbound(e, x);
        assert x in Referenced(e);
      }
      forall s | Closed(e, v, s) ensures x in s {
        LeastIsLeast(e, v, s);
        ReadyMonotone(e, v, x, l, s);
      }
    }
  }

  /** Nothing is deleted without cause: the least closed set is a fixed point of the rule. */
  lemma LeastReady(e: Edges, v: Seeds, x: Address)
    ensures x in Least(e, v) <==> Ready(e, v, x, Least(e, v))
  {
    var l := Least(e, v);
    LeastClosed(e, v);
    if x in l && !Ready(e, v, x, l) {
      assert Closed(e, v, l - {x}) by {
        forall y | Ready(e, v, y, l - {x}) ensures y in l - {x} {
          ReadyMonotone(e, v, y, l - {x}, l);
        }
      }
      LeastIsLeast(e, v, l - {x});
    }
  }

  lemma RetainedSelf(e: Edges, o: Address)
    ensures o in Retained(e, o)
  {
    LeastReady(e, map[o := 0], o);
  }

  /** The rule for one object: `o` itself, and every node with inbound references, all deleted. */
  lemma RetainedRule(e: Edges, o: Address, x: Address)
    ensures x in Retained(e, o) <==>
            x == o || (Inbound(e, x) != {} && Inbound(e, x) <= Retained(e, o))
  {
    LeastReady(e, map[o := 0], x);
  }

  /** The least set: any set with the same closure property contains it. */
  lemma RetainedLeast(e: Edges, o: Address, s: set<Address>)
    requires o in s
    requires forall x | Inbound(e, x) != {} && Inbound(e, x) <= s :: x in s
    ensures Retained(e, o) <= s
  {
    assert Closed(e, map[o := 0], s);
    LeastIsLeast(e, map[o := 0], s);
  }
}
