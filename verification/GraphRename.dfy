/** Renaming the nodes of a graph one to one renames its cascades and keeps their sizes. */
module GraphRename {
  import opened Sums
  import opened GraphTheory
  import opened CascadeSpec

  type Renaming = map<Address, Address>

  ghost predicate OneToOne(f: Renaming) {
    forall a, b | a in f && b in f && f[a] == f[b] :: a == b
  }

  ghost function Image(f: Renaming, s: set<Address>): set<Address>
    requires s <= f.Keys
  {
    set a | a in s :: f[a]
  }

  /** The addresses whose new names lie in `s`. */
  ghost function Preimage(f: Renaming, s: set<Address>): set<Address> {
    set a | a in f && f[a] in s
  }

  ghost predicate Covers(f: Renaming, e: Edges, v: Seeds) {
    OneToOne(f) && Nodes(e) <= f.Keys && v.Keys <= f.Keys
  }

  ghost predicate RenamedEdges(f: Renaming, e: Edges, e': Edges)
    requires Nodes(e) <= f.Keys
  {
    && e'.Keys == Image(f, e.Keys)
    && forall a | a in e :: ReferentsNamed(f, e, a) && e'[f[a]] == Image(f, e[a])
  }

  ghost predicate ReferentsNamed(f: Renaming, e: Edges, a: Address)
    requires a in e
  {
    a in f && e[a] <= f.Keys
  }

  ghost predicate RenamedSeeds(f: Renaming, v: Seeds, v': Seeds)
    requires v.Keys <= f.Keys
  {
    v'.Keys == Image(f, v.Keys) && forall a | a in v :: v'[f[a]] == v[a]
  }

  lemma {:induction false} ImageCard(f: Renaming, s: set<Address>)
    requires OneToOne(f) && s <= f.Keys
    ensures |Image(f, s)| == |s|
    decreases |s|
  {
    if a :| a in s {
      ImageCard(f, s - {a});
      assert Image(f, s) == Image(f, s - {a}) + {f[a]};
    } else {
      assert Image(f, s) == {};
    }
  }

  lemma ImageFacts(f: Renaming, s: set<Address>, t: set<Address>)
    requires OneToOne(f) && s <= f.Keys && t <= f.Keys
    ensures Image(f, s * t) == Image(f, s) * Image(f, t)
    ensures Image(f, s) <= Image(f, t) <==> s <= t
    ensures Preimage(f, Image(f, s)) == s
  {
    forall a | a in s ensures f[a] in Image(f, t) <==> a in t {
    }
  }

  lemma InboundRenamed(f: Renaming, e: Edges, e': Edges, v: Seeds, x: Address)
    requires Covers(f, e, v) && RenamedEdges(f, e, e') && x in f
    ensures Inbound(e, x) <= f.Keys && Inbound(e', f[x]) == Image(f, Inbound(e, x))
  {
    forall y | y in e ensures ReferentsNamed(f, e, y) && (f[x] in e'[f[y]] <==> x in e[y]) {
    }
    forall z | z in Inbound(e', f[x]) ensures z in Image(f, Inbound(e, x)) {
      var y :| y in e && f[y] == z;
    }
  }

  lemma ReadyRenamed(f: Renaming, e: Edges, e': Edges, v: Seeds, v': Seeds, x: Address, s: set<Address>)
    requires Covers(f, e, v) && RenamedEdges(f, e, e') && RenamedSeeds(f, v, v')
    requires x in f && s <= f.Keys
    ensures Ready(e, v, x, s) <==> Ready(e', v', f[x], Image(f, s))
  {
    InboundRenamed(f, e, e', v, x);
    var in_ := Inbound(e, x);
    assert x in v <==> f[x] in v';
    ImageFacts(f, in_, s);
    ImageCard(f, in_ * s);
    ImageCard(f, in_);
  }

  lemma NodesRenamed(f: Renaming, e: Edges, e': Edges, v: Seeds, v': Seeds)
    requires Covers(f, e, v) && RenamedEdges(f, e, e') && RenamedSeeds(f, v, v')
    ensures Nodes(e') + v'.Keys <= Image(f, f.Keys)
  {
    forall y | y in Referenced(e') ensures y in Image(f, f.Keys) {
      var z :| z in e' && y in e'[z];
      var a :| a in e && f[a] == z;
      assert ReferentsNamed(f, e, a);
    }
  }

  /** A cascade over renamed nodes deletes exactly the renamed nodes. */
  lemma LeastRenamed(f: Renaming, e: Edges, e': Edges, v: Seeds, v': Seeds)
    requires Covers(f, e, v) && RenamedEdges(f, e, e') && RenamedSeeds(f, v, v')
    ensures Least(e, v) <= f.Keys
    ensures Least(e', v') == Image(f, Least(e, v))
  {
    var l, l' := Least(e, v), Least(e', v');
    LeastInside(e, v);
    LeastInside(e', v');
    NodesRenamed(f, e, e', v, v');
    hide Least, Ready, RenamedEdges, RenamedSeeds, Nodes, Covers;
    assert Closed(e', v', Image(f, l)) by {
      forall y | Ready(e', v', y, Image(f, l)) ensures y in Image(f, l) {
        RenamedReadyNode(f, e, e', v, v', y, l);
        var x :| x in f && f[x] == y;
        ReadyRenamed(f, e, e', v, v', x, l);
        LeastClosed(e, v);
      }
    }
    LeastIsLeast(e', v', Image(f, l));
    var s := Preimage(f, l');
    assert Image(f, s) == l';
    assert Closed(e, v, s) by {
      forall x | Ready(e, v, x, s) ensures x in s {
        ReadyIsNode(e, v, x, s);
        CoversNode(f, e, v, x);
        ReadyRenamed(f, e, e', v, v', x, s);
        LeastClosed(e', v');
      }
    }
    LeastIsLeast(e, v, s);
  }

  lemma LeastInside(e: Edges, v: Seeds)
    ensures Least(e, v) <= Nodes(e) + v.Keys
  {
  }

  lemma CoversNode(f: Renaming, e: Edges, v: Seeds, x: Address)
    requires Covers(f, e, v) && x in Nodes(e) + v.Keys
    ensures x in f
  {
  }

  lemma ReadyIsNode(e: Edges, v: Seeds, x: Address, s: set<Address>)
    requires Ready(e, v, x, s)
    ensures x in Nodes(e) + v.Keys
  {
    if x !in v {
      var p :| p in Inbound(e, x);
      assert x in Referenced(e);
    }
  }

  lemma RenamedReadyNode(f: Renaming, e: Edges, e': Edges, v: Seeds, v': Seeds, y: Address, l: set<Address>)
    requires Covers(f, e, v) && RenamedEdges(f, e, e') && RenamedSeeds(f, v, v') && l <= f.Keys
    requires Ready(e', v', y, Image(f, l))
    ensures exists x :: x in f && f[x] == y
  {
    ReadyIsNode(e', v', y, Image(f, l));
    NodesRenamed(f, e, e', v, v');
    assert y in Image(f, f.Keys);
  }

  lemma {:induction false} SumRenamed(f: Renaming, m: map<Address, nat>, m': map<Address, nat>, s: set<Address>)
    requires OneToOne(f) && s <= f.Keys
    requires forall a | a in s :: Entry(m', f[a]) == Entry(m, a)
    ensures SumOver(m', Image(f, s)) == SumOver(m, s)
    decreases |s|
  {
    hide SumOver;
    if s == {} {
      assert Image(f, s) == {};
      SumEmpty(m);
      SumEmpty(m');
    } else {
      var a :| a in s;
      SumRenamed(f, m, m', s - {a});
      SumPick(m, s, a);
      assert Image(f, s) == Image(f, s - {a}) + {f[a]};
      assert f[a] !in Image(f, s - {a});
      SumAdd(m', Image(f, s - {a}), f[a]);
    }
  }

  ghost function Origin(f: Renaming, s: set<Address>, n: Address): (a: Address)
    requires s <= f.Keys && n in Image(f, s)
    ensures a in s && f[a] == n
  {
    var a :| a in s && f[a] == n;
    a
  }

  ghost function Named(f: Renaming, v: Seeds): (v': Seeds)
    requires OneToOne(f) && v.Keys <= f.Keys
    ensures RenamedSeeds(f, v, v')
  {
    map n | n in Image(f, v.Keys) :: v[Origin(f, v.Keys, n)]
  }

  lemma NamedNext(f: Renaming, v: Seeds, v': Seeds, a: Address, count: int)
    requires OneToOne(f) && v.Keys <= f.Keys && a in f && a !in v && RenamedSeeds(f, v, v')
    ensures RenamedSeeds(f, v[a := count], v'[f[a] := count])
  {
    assert Image(f, v.Keys + {a}) == Image(f, v.Keys) + {f[a]};
    assert v[a := count].Keys == v.Keys + {a};
  }

  lemma NamedNothing(f: Renaming)
    ensures RenamedSeeds(f, map[], map[])
  {
    assert Image(f, {}) == {};
  }
}
