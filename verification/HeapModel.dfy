/** The analyzer's in-memory heap: threads with their frames, and objects with their references. */
module HeapModel {
  import opened GraphTheory

  type Byte = b: int | 0 <= b < 256

  /** Strings are kept as the bytes they are stored as. */
  type Text = seq<Byte>

  datatype Option<+T> = None | Some(value: T)

  datatype Frame = Frame(fileName: Text, lineNumber: nat, functionName: Text, locals: map<Text, Address>)

  datatype Thread = Thread(name: Text, isAlive: bool, isDaemon: bool, stackTrace: seq<Frame>) {
    function Locals(): set<Address> {
      set f, a | f in stackTrace && a in f.locals.Values :: a
    }
  }

  datatype Content =
    | NoContent
    | DictContent(entries: map<Address, Address>)
    | ListContent(items: seq<Address>)
    | TupleContent(items: seq<Address>)
    | SetContent(members: set<Address>)

  datatype HeapObject = HeapObject(address: Address, typeAddress: Address, size: nat, referents: set<Address>,
                                   content: Content, stringOffset: Option<nat>)

  datatype Header = Header(version: nat, createdAt: Text, withStrRepr: bool, wellKnownTypes: map<Text, Address>)

  datatype Heap = Heap(header: Header, threads: seq<Thread>, objects: map<Address, HeapObject>,
                       types: map<Address, Text>)
  {
    ghost function Refs(): Edges {
      map a | a in objects :: objects[a].referents
    }

    ghost function Sizes(): (sizes: map<Address, nat>)
      ensures sizes.Keys == objects.Keys
    {
      map a | a in objects :: objects[a].size
    }
  }

  /** The local addresses of a thread, gathered frame by frame. */
  method GatherLocals(thread: Thread) returns (result: set<Address>)
    ensures result == thread.Locals()
    ensures forall a :: a in result <==> InSomeFrame(thread, a)
  {
    result := {};
    for i := 0 to |thread.stackTrace|
      invariant result == set f, a | f in thread.stackTrace[..i] && a in f.locals.Values :: a
    {
      assert thread.stackTrace[..i + 1] == thread.stackTrace[..i] + [thread.stackTrace[i]];
      result := result + thread.stackTrace[i].locals.Values;
    }
    assert thread.stackTrace[..|thread.stackTrace|] == thread.stackTrace;
    forall a ensures a in result <==> InSomeFrame(thread, a) {
      LocalsAreNamed(thread, a);
    }
  }

  /** Some frame of the thread, whichever it is, has a local with this address. */
  ghost predicate InSomeFrame(thread: Thread, a: Address) {
    exists i, n :: 0 <= i < |thread.stackTrace| && n in thread.stackTrace[i].locals && thread.stackTrace[i].locals[n] == a
  }

  /** The locals of a thread are those of all its frames. */
  lemma LocalsAreNamed(thread: Thread, a: Address)
    ensures a in thread.Locals() <==> InSomeFrame(thread, a)
  {
    if a in thread.Locals() {
      var f :| f in thread.stackTrace && a in f.locals.Values;
      var i :| 0 <= i < |thread.stackTrace| && thread.stackTrace[i] == f;
      var n :| n in f.locals && f.locals[n] == a;
      assert n in thread.stackTrace[i].locals;
    }
    if InSomeFrame(thread, a) {
      var i, n :| 0 <= i < |thread.stackTrace| && n in thread.stackTrace[i].locals &&
                  thread.stackTrace[i].locals[n] == a;
      assert a in thread.stackTrace[i].locals.Values;
    }
  }

  /** The elements of a set, in an order that nothing relies on. */
  method ListOf(s: set<Address>) returns (list: seq<Address>)
    ensures forall x :: x in list <==> x in s
  {
    list := [];
    var todo := s;
    while todo != {}
      invariant todo <= s
      invariant forall x :: x in list <==> x in s - todo
    {
      var x :| x in todo;
      todo := todo - {x};
      list := list + [x];
    }
  }
}
