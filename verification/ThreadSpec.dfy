/** What deleting a thread's locals deletes. */
module ThreadSpec {
  import opened Sums
  import opened GraphTheory
  import opened CascadeSpec
  import opened HeapModel

  /** How many threads other than `removed` (compared as values) hold `a` in a local. */
  function OtherHolders(threads: seq<Thread>, removed: Thread, a: Address): nat {
    if threads == [] then 0
    else OtherHolders(threads[..|threads| - 1], removed, a) +
         var t := threads[|threads| - 1];
         if t != removed && a in t.Locals() then 1 else 0
  }

  ghost function ThreadSeeds(e: Edges, threads: seq<Thread>, removed: Thread): Seeds {
    map a | a in removed.Locals() :: |Inbound(e, a)| + OtherHolders(threads, removed, a)
  }

  ghost function ThreadRetained(e: Edges, threads: seq<Thread>, removed: Thread): set<Address> {
    Least(e, ThreadSeeds(e, threads, removed))
  }

  lemma {:induction false} OtherHoldersZero(threads: seq<Thread>, removed: Thread, a: Address)
    ensures OtherHolders(threads, removed, a) == 0 <==>
            forall t | t in threads && t != removed :: a !in t.Locals()
  {
    if threads != [] {
      var last := threads[|threads| - 1];
      OtherHoldersZero(threads[..|threads| - 1], removed, a);
      assert threads == threads[..|threads| - 1] + [last];
    }
  }

  /**
   * The rule for a thread: one of its locals goes once no other thread holds it and all its inbound
   * references are gone; any other node once it has inbound references, all of them gone.
   */
  lemma ThreadRule(e: Edges, threads: seq<Thread>, removed: Thread, x: Address)
    ensures var gone := ThreadRetained(e, threads, removed);
            x in gone <==>
            if x in removed.Locals()
            then (forall t | t in threads && t != removed :: x !in t.Locals()) && Inbound(e, x) <= gone
            else Inbound(e, x) != {} && Inbound(e, x) <= gone
  {
    var v, gone := ThreadSeeds(e, threads, removed), ThreadRetained(e, threads, removed);
    LeastReady(e, v, x);
    if x in removed.Locals() {
      OtherHoldersZero(threads, removed, x);
      CountIsAll(Inbound(e, x), gone);
    }
  }

  /** The same rule with what threads hold spelt out, frame by frame and name by name. */
  lemma ThreadRuleByFrames(e: Edges, threads: seq<Thread>, removed: Thread, x: Address)
    ensures var gone := ThreadRetained(e, threads, removed);
            x in gone <==>
            if exists i, n :: 0 <= i < |removed.stackTrace| && n in removed.stackTrace[i].locals &&
                              removed.stackTrace[i].locals[n] == x
            then (forall t, i, n | t in threads && t != removed && 0 <= i < |t.stackTrace| && n in t.stackTrace[i].locals ::
                    t.stackTrace[i].locals[n] != x) &&
                 Inbound(e, x) <= gone
            else Inbound(e, x) != {} && Inbound(e, x) <= gone
  {
    hide ThreadRetained, Inbound;
    ThreadRule(e, threads, removed, x);
    LocalsAreNamed(removed, x);
    assert InSomeFrame(removed, x) <==>
           exists i, n :: 0 <= i < |removed.stackTrace| && n in removed.stackTrace[i].locals &&
                          removed.stackTrace[i].locals[n] == x;
    forall t | t in threads ensures x in t.Locals() <==> InSomeFrame(t, x) {
      LocalsAreNamed(t, x);
    }
  }

  lemma CountIsAll(a: set<Address>, s: set<Address>)
    ensures |a * s| <= |a|
    ensures |a * s| == |a| <==> a <= s
  {
    SubsetCard(a * s, a);
    if a <= s {
      assert a * s == a;
    } else {
      var x :| x in a && x !in s;
      assert x !in a * s;
    }
  }

  /** Two different threads never retain the same address. */
  lemma ThreadsRetainDisjoint(e: Edges, threads: seq<Thread>, t: Thread, u: Thread)
    requires t in threads && u in threads && t != u
    ensures ThreadRetained(e, threads, t) !! ThreadRetained(e, threads, u)
  {
    hide ThreadRetained, Inbound;
    var mine, theirs := ThreadRetained(e, threads, t), ThreadRetained(e, threads, u);
    var rest := mine - theirs;
    forall x | Ready(e, ThreadSeeds(e, threads, t), x, rest) ensures x in rest {
      NotTheirs(e, threads, t, u, x);
    }
    ThreadLeast(e, threads, t, rest);
  }

  lemma ThreadLeast(e: Edges, threads: seq<Thread>, t: Thread, s: set<Address>)
    requires forall x | Ready(e, ThreadSeeds(e, threads, t), x, s) :: x in s
    ensures ThreadRetained(e, threads, t) <= s
  {
    assert Closed(e, ThreadSeeds(e, threads, t), s);
    LeastIsLeast(e, ThreadSeeds(e, threads, t), s);
  }

  lemma NotTheirs(e: Edges, threads: seq<Thread>, t: Thread, u: Thread, x: Address)
    requires t in threads && u in threads && t != u
    requires Ready(e, ThreadSeeds(e, threads, t), x, ThreadRetained(e, threads, t) - ThreadRetained(e, threads, u))
    ensures x in ThreadRetained(e, threads, t) - ThreadRetained(e, threads, u)
  {
    hide ThreadRetained, Inbound;
    var mine, theirs := ThreadRetained(e, threads, t), ThreadRetained(e, threads, u);
    var rest := mine - theirs;
    ThreadRule(e, threads, t, x);
    ThreadRule(e, threads, u, x);
    if x in t.Locals() {
      OtherHoldersZero(threads, t, x);
      CountIsAll(Inbound(e, x), rest);
    }
    if p :| p in Inbound(e, x) {
      assert !(p in rest && p in theirs);
    }
  }

  /** The bytes retained by the threads before index `n`, by name; a later thread of the same name replaces an earlier. */
  ghost function ThreadSizes(e: Edges, sizes: map<Address, nat>, threads: seq<Thread>, n: nat): map<Text, nat>
    requires n <= |threads|
  {
    if n == 0 then map[]
    else ThreadSizes(e, sizes, threads, n - 1)[threads[n - 1].name :=
           SumOver(sizes, ThreadRetained(e, threads, threads[n - 1]))]
  }

  ghost function Names(threads: seq<Thread>): set<Text> {
    set t | t in threads :: t.name
  }

  lemma {:induction false} ThreadSizesKeys(e: Edges, sizes: map<Address, nat>, threads: seq<Thread>, n: nat)
    requires n <= |threads|
    ensures ThreadSizes(e, sizes, threads, n).Keys == Names(threads[..n])
  {
    hide SumOver, ThreadRetained;
    if n > 0 {
      ThreadSizesKeys(e, sizes, threads, n - 1);
      assert threads[..n] == threads[..n - 1] + [threads[n - 1]];
    }
  }

  /** An entry is the size retained by the last thread of that name. */
  lemma {:induction false} ThreadSizesLast(e: Edges, sizes: map<Address, nat>, threads: seq<Thread>, n: nat, i: nat)
    requires i < n <= |threads|
    requires forall j | i < j < n :: threads[j].name != threads[i].name
    ensures threads[i].name in ThreadSizes(e, sizes, threads, n)
    ensures ThreadSizes(e, sizes, threads, n)[threads[i].name] ==
            SumOver(sizes, ThreadRetained(e, threads, threads[i]))
  {
    hide SumOver, ThreadRetained;
    if i < n - 1 {
      ThreadSizesLast(e, sizes, threads, n - 1, i);
    }
  }

  lemma ThreadRetainedIs(e: Edges, threads: seq<Thread>, removed: Thread)
    ensures ThreadRetained(e, threads, removed) == Least(e, ThreadSeeds(e, threads, removed))
  {
  }

  /** The thread whose only local is `a`. */
  function Holding(a: Address): Thread {
    Thread([], true, false, [Frame([], 0, [], map[[] := a])])
  }

  lemma HoldingLocals(a: Address)
    ensures Holding(a).Locals() == {a}
  {
    var f := Frame([], 0, [], map[[] := a]);
    assert f.locals[[]] == a;
    assert f in Holding(a).stackTrace && a in f.locals.Values;
  }
}
