/** The two phone books: dynmem.c keeps a doubly linked list, functions.c an array of at most 100 entries. */
module PhoneBooks {
  datatype Record = Record(name: string, surname: string, tel: string)

  // What the operations mean, on the sequence of records a book holds.

  function Without(s: seq<Record>, i: nat): seq<Record>
    requires i < |s|
  {
    s[..i] + s[i + 1..]
  }

  /** The entry the list's removal loop stops at: a negative number stops at the head. */
  function Stop(number: int): nat {
    if number < 0 then 0 else number
  }

  function ListRemove(s: seq<Record>, number: int): seq<Record> {
    if Stop(number) < |s| then Without(s, Stop(number)) else s
  }

  const MAX_ABONENTS := 100

  function ArrayAdd(s: seq<Record>, r: Record): seq<Record> {
    if |s| >= MAX_ABONENTS then s else s + [r]
  }

  function ArrayRemove(s: seq<Record>, number: int): seq<Record> {
    if 0 <= number < |s| then Without(s, number) else s
  }

  /** The entries with a name, with their numbers, in order. */
  function Hits(s: seq<Record>, name: string): seq<(nat, Record)> {
    if s == [] then [] else
    var i := |s| - 1;
    Hits(s[..i], name) + if s[i].name == name then [(i, s[i])] else []
  }

  /** Hits reports exactly the matching numbers, each with its record, in increasing order. */
  lemma {:induction false} HitsExact(s: seq<Record>, name: string)
    ensures var h := Hits(s, name);
      && (forall i: nat, r :: (i, r) in h <==> i < |s| && r == s[i] && r.name == name)
      && (forall a, b :: 0 <= a < b < |h| ==> h[a].0 < h[b].0)
  {
    if s != [] {
      HitsExact(s[..|s| - 1], name);
      var before, h := Hits(s[..|s| - 1], name), Hits(s, name);
      forall a, b | 0 <= a < b < |h|
        ensures h[a].0 < h[b].0
      {
        assert h[a] == before[a];
        assert (before[a].0, before[a].1) in before;
      }
    }
  }

  class Node {
    const data: Record
    var next: Node?
    var prev: Node?

    constructor (data: Record, prev: Node?)
      ensures this.data == data && this.next == null && this.prev == prev
    {
      this.data, this.next, this.prev := data, null, prev;
    }
  }

  ghost predicate Distinct(nodes: seq<Node>) {
    forall i, j :: 0 <= i < j < |nodes| ==> nodes[i] != nodes[j]
  }

  /** The live nodes are those of the list, each once, holding its records in order. */
  ghost predicate Accounted(nodes: seq<Node>, contents: seq<Record>, live: set<Node>) {
    && |contents| == |nodes| == |live|
    && (forall i :: 0 <= i < |nodes| ==> nodes[i] in live && nodes[i].data == contents[i])
    && (forall n :: n in live ==> n in nodes)
    && Distinct(nodes)
  }

  lemma DistinctWithout(nodes: seq<Node>, i: nat)
    requires Distinct(nodes) && i < |nodes|
    ensures var rest := nodes[..i] + nodes[i + 1..];
      Distinct(rest) && forall n :: n in rest <==> n in nodes && n != nodes[i]
  {
    var rest := nodes[..i] + nodes[i + 1..];
    forall n | n in nodes && n != nodes[i]
      ensures n in rest
    {
      var j :| 0 <= j < |nodes| && nodes[j] == n;
      assert n == rest[if j < i then j else j - 1];
    }
  }

  lemma AccountedWithout(nodes: seq<Node>, contents: seq<Record>, live: set<Node>, i: nat)
    requires Accounted(nodes, contents, live) && i < |nodes|
    ensures Accounted(nodes[..i] + nodes[i + 1..], Without(contents, i), live - {nodes[i]})
    ensures |live - {nodes[i]}| == |live| - 1
  {
    hide Distinct;
    DistinctWithout(nodes, i);
  }

  lemma AccountedWith(nodes: seq<Node>, contents: seq<Record>, live: set<Node>, n: Node)
    requires Accounted(nodes, contents, live) && n !in live
    ensures Accounted(nodes + [n], contents + [n.data], live + {n}) && |live + {n}| == |live| + 1
  {
  }

  lemma AccountedFacts(nodes: seq<Node>, contents: seq<Record>, live: set<Node>)
    requires Accounted(nodes, contents, live)
    ensures |contents| == |nodes| == |live| && (forall n :: n in nodes <==> n in live)
    ensures Distinct(nodes)
  {
  }

  lemma NothingAccounted()
    ensures Accounted([], [], {})
  {
  }

  class ListBook {
    var head: Node?
    var tail: Node?

    /** The nodes in list order, and the records they hold. */
    ghost var nodes: seq<Node>
    ghost var contents: seq<Record>
    /** The nodes allocated and not yet freed, and how many of each there have been. */
    ghost var live: set<Node>
    ghost var allocs: nat
    ghost var frees: nat

    /** The links mirror each other along the sequence of nodes. */
    ghost predicate Linked()
      reads `head, `tail, `nodes, nodes
    {
      && head == (if nodes == [] then null else nodes[0])
      && tail == (if nodes == [] then null else nodes[|nodes| - 1])
      && (forall i {:trigger nodes[i].next} :: 0 <= i < |nodes| ==>
            nodes[i].next == if i + 1 < |nodes| then nodes[i + 1] else null)
      && (forall i {:trigger nodes[i].prev} :: 0 <= i < |nodes| ==>
            nodes[i].prev == if i > 0 then nodes[i - 1] else null)
    }

    ghost predicate Valid()
      reads this, nodes
    {
      Linked() && Accounted(nodes, contents, live) && allocs == frees + |live|
    }

    constructor ()
      ensures Valid() && contents == [] && nodes == [] && live == {}
    {
      head, tail := null, null;
      nodes, contents, live, allocs, frees := [], [], {}, 0, 0;
    }

    /** add_abonent; alloc says whether malloc succeeds. */
    method Add(r: Record, alloc: bool) returns (ok: bool)
      requires Valid()
      modifies this, nodes
      ensures Valid() && ok == alloc && frees == old(frees)
      ensures contents == old(contents) + if ok then [r] else []
      ensures forall k :: 0 <= k < |nodes| ==> nodes[k] in old(nodes) || fresh(nodes[k])
    {
      hide Linked, Accounted, Distinct;
      if !alloc {
        return false;
      }
      assert Distinct(nodes) by {
        AccountedFacts(nodes, contents, live);
      }
      var node := Append(r);
      AccountedWith(old(nodes), contents, live, node);
      contents, live, allocs := contents + [r], live + {node}, allocs + 1;
      return true;
    }

    /** Puts a new node behind the last one. */
    method Append(r: Record) returns (node: Node)
      requires Linked() && Distinct(nodes)
      modifies `head, `tail, `nodes, nodes`next
      ensures Linked() && nodes == old(nodes) + [node] && fresh(node) && node.data == r
    {
      node := new Node(r, tail);
      if tail != null {
        tail.next := node;
      } else {
        head := node;
      }
      tail := node;
      nodes := nodes + [node];
    }

    /** free of a node, which must be live. */
    ghost method Free(n: Node)
      requires n in live
      modifies `live, `frees
      ensures live == old(live) - {n} && frees == old(frees) + 1
    {
      live, frees := live - {n}, frees + 1;
    }

    /** Takes the node at index i out of the list. */
    method Unlink(n: Node, ghost i: nat)
      requires Linked() && i < |nodes| && n == nodes[i]
      requires Distinct(nodes)
      modifies `head, `tail, `nodes, nodes
      ensures Linked() && nodes == old(nodes)[..i] + old(nodes)[i + 1..]
    {
      assert i > 0 ==> nodes[i - 1].next == n;
      assert i + 1 < |nodes| ==> nodes[i + 1].prev == n;
      if n.prev != null {
        n.prev.next := n.next;
      } else {
        head := n.next;
      }
      if n.next != null {
        n.next.prev := n.prev;
      } else {
        tail := n.prev;
      }
      nodes := nodes[..i] + nodes[i + 1..];
    }

    /** remove_abonent */
    method Remove(number: int) returns (removed: bool)
      requires Valid()
      modifies this, nodes
      ensures Valid() && live <= old(live) && allocs == old(allocs)
      ensures forall k :: 0 <= k < |nodes| ==> nodes[k] in old(nodes)
      ensures removed == (Stop(number) < |old(contents)|)
      ensures contents == ListRemove(old(contents), number)
    {
      hide Accounted;
      AccountedFacts(nodes, contents, live);
      if head == null {
        return false;
      }
      var current := head;
      var index := 0;
      while current != null && index < number
        invariant 0 <= index <= |nodes| && index <= Stop(number)
        invariant current == if index < |nodes| then nodes[index] else null
        decreases number - index
      {
        current := current.next;
        index := index + 1;
      }
      if current == null {
        return false;
      }
      AccountedWithout(nodes, contents, live, index);
      Unlink(current, index);
      contents := Without(contents, index);
      Free(current);
      return true;
    }

    /** search_abonent: what it prints, and how many it counts. */
    method Search(name: string) returns (hits: seq<(nat, Record)>, found: nat)
      requires Valid()
      ensures hits == Hits(contents, name) && found == |hits|
    {
      hits, found := [], 0;
      var current := head;
      var index := 0;
      while current != null
        invariant index <= |nodes| && current == if index < |nodes| then nodes[index] else null
        invariant hits == Hits(contents[..index], name) && found == |hits|
        decreases |nodes| - index
      {
        assert contents[..index + 1][..index] == contents[..index];
        if current.data.name == name {
          hits, found := hits + [(index, current.data)], found + 1;
        }
        current := current.next;
        index := index + 1;
      }
      assert contents[..index] == contents;
    }

    /** free_all: every node is freed once, and no freed node is read. */
    method FreeAll()
      requires Valid()
      modifies this
      ensures Valid() && contents == [] && live == {} && frees == allocs == old(allocs)
    {
      hide Accounted;
      AccountedFacts(nodes, contents, live);
      ghost var i := 0;
      var current := head;
      while current != null
        invariant i <= |nodes| && current == if i < |nodes| then nodes[i] else null
        invariant forall n :: n in live <==> n in nodes[i..]
        invariant |live| == |nodes| - i && allocs == frees + |live|
        modifies `live, `frees
        decreases |nodes| - i
      {
        var next := current.next;
        Free(current);
        current := next;
        i := i + 1;
      }
      head, tail := null, null;
      nodes, contents := [], [];
      NothingAccounted();
    }

    /** One choice of the menu. */
    method Perform(c: Command) returns (answer: Answer)
      requires Valid()
      modifies this, nodes
      ensures Valid() && contents == ListStep(old(contents), c) && answer == ListAnswer(old(contents), c)
      ensures forall k :: 0 <= k < |nodes| ==> nodes[k] in old(nodes) || fresh(nodes[k])
    {
      hide Linked, Accounted;
      match c
      case Add(r, alloc) =>
        var ok := Add(r, alloc);
        answer := Added(ok);
      case Remove(number) =>
        var removed := Remove(number);
        answer := Removed(removed);
      case Search(name) =>
        var hits, found := Search(name);
        answer := Found(hits, found);
    }
  }

  class ArrayBook {
    const book: array<Record>
    var count: nat

    ghost predicate Valid()
      reads this
    {
      count <= book.Length == MAX_ABONENTS
    }

    ghost function Contents(): seq<Record>
      requires Valid()
      reads this, book
    {
      book[..count]
    }

    constructor ()
      ensures Valid() && Contents() == [] && fresh(book)
    {
      book := new Record[MAX_ABONENTS](_ => Record("", "", ""));
      count := 0;
    }

    /** add_abonent: ok is false for a book that is full. */
    method Add(r: Record) returns (ok: bool)
      requires Valid()
      modifies this, book
      ensures Valid() && Contents() == ArrayAdd(old(Contents()), r)
      ensures ok == (|old(Contents())| < MAX_ABONENTS)
    {
      if count >= MAX_ABONENTS {
        return false;
      }
      book[count] := r;
      count := count + 1;
      return true;
    }

    /** remove_abonent: shifts the later entries down. */
    method Remove(number: int) returns (removed: bool)
      requires Valid()
      modifies this, book
      ensures Valid() && Contents() == ArrayRemove(old(Contents()), number)
      ensures removed == (0 <= number < |old(Contents())|)
    {
      if number < 0 || number >= count {
        return false;
      }
      for i := number to count - 1
        invariant Valid() && count == old(count)
        invariant forall k :: 0 <= k < number ==> book[k] == old(book[k])
        invariant forall k :: number <= k < i ==> book[k] == old(book[k + 1])
        invariant forall k :: i <= k < count ==> book[k] == old(book[k])
      {
        book[i] := book[i + 1];
      }
      count := count - 1;
      return true;
    }

    /** search_abonent */
    method Search(name: string) returns (hits: seq<(nat, Record)>, counter: nat)
      requires Valid()
      ensures hits == Hits(Contents(), name) && counter == |hits|
    {
      hits, counter := [], 0;
      for i := 0 to count
        invariant hits == Hits(book[..i], name) && counter == |hits|
      {
        assert book[..i + 1][..i] == book[..i];
        if book[i].name == name {
          hits, counter := hits + [(i, book[i])], counter + 1;
        }
      }
    }

    /** One choice of the menu. */
    method Perform(c: Command) returns (answer: Answer)
      requires Valid()
      modifies this, book
      ensures Valid() && Contents() == ArrayStep(old(Contents()), c) && answer == ArrayAnswer(old(Contents()), c)
    {
      match c
      case Add(r, _) =>
        var ok := Add(r);
        answer := Added(ok);
      case Remove(number) =>
        var removed := Remove(number);
        answer := Removed(removed);
      case Search(name) =>
        var hits, found := Search(name);
        answer := Found(hits, found);
    }
  }

  // The two books side by side.

  /** A choice of either menu; alloc says whether malloc would succeed, which matters to the list alone. */
  datatype Command = Add(r: Record, alloc: bool) | Remove(number: int) | Search(name: string)

  /** What a user is told: that an entry was or was not added or removed, or the matches and their number. */
  datatype Answer = Added(ok: bool) | Removed(ok: bool) | Found(hits: seq<(nat, Record)>, found: nat)

  function ListStep(s: seq<Record>, c: Command): seq<Record> {
    match c
    case Add(r, alloc) => if alloc then s + [r] else s
    case Remove(number) => ListRemove(s, number)
    case Search(_) => s
  }

  function ListAnswer(s: seq<Record>, c: Command): Answer {
    match c
    case Add(_, alloc) => Added(alloc)
    case Remove(number) => Removed(Stop(number) < |s|)
    case Search(name) => Found(Hits(s, name), |Hits(s, name)|)
  }

  function ArrayStep(s: seq<Record>, c: Command): seq<Record> {
    match c
    case Add(r, _) => ArrayAdd(s, r)
    case Remove(number) => ArrayRemove(s, number)
    case Search(_) => s
  }

  function ArrayAnswer(s: seq<Record>, c: Command): Answer {
    match c
    case Add(_, _) => Added(|s| < MAX_ABONENTS)
    case Remove(number) => Removed(0 <= number < |s|)
    case Search(name) => Found(Hits(s, name), |Hits(s, name)|)
  }

  // Runs: the entries after all the commands, the entries after each, and the answer to each.

  function ListRun(cs: seq<Command>): seq<Record> {
    if cs == [] then [] else ListStep(ListRun(cs[..|cs| - 1]), cs[|cs| - 1])
  }

  function ListStates(cs: seq<Command>): seq<seq<Record>> {
    if cs == [] then [] else ListStates(cs[..|cs| - 1]) + [ListRun(cs)]
  }

  function ListAnswers(cs: seq<Command>): seq<Answer> {
    if cs == [] then [] else
    ListAnswers(cs[..|cs| - 1]) + [ListAnswer(ListRun(cs[..|cs| - 1]), cs[|cs| - 1])]
  }

  function ArrayRun(cs: seq<Command>): seq<Record> {
    if cs == [] then [] else ArrayStep(ArrayRun(cs[..|cs| - 1]), cs[|cs| - 1])
  }

  function ArrayStates(cs: seq<Command>): seq<seq<Record>> {
    if cs == [] then [] else ArrayStates(cs[..|cs| - 1]) + [ArrayRun(cs)]
  }

  function ArrayAnswers(cs: seq<Command>): seq<Answer> {
    if cs == [] then [] else
    ArrayAnswers(cs[..|cs| - 1]) + [ArrayAnswer(ArrayRun(cs[..|cs| - 1]), cs[|cs| - 1])]
  }

  /** The commands both books take alike: an addition for which memory is there exactly when the array has room, and
      no removal of a negative number, which the list takes to mean its head, from a book that has entries. */
  predicate Common(s: seq<Record>, c: Command) {
    (c.Add? ==> (c.alloc <==> |s| < MAX_ABONENTS)) && (c.Remove? && c.number < 0 ==> s == [])
  }

  /** Books with the same entries hold the same entries after a command exactly when it is a common one, and then
      they give the same answer to it. */
  lemma StepsAgreeIff(s: seq<Record>, c: Command)
    ensures ListStep(s, c) == ArrayStep(s, c) <==> Common(s, c)
    ensures Common(s, c) ==> ListAnswer(s, c) == ArrayAnswer(s, c)
  {
    if c.Add? {
      assert |s + [c.r]| != |s|;
    } else if c.Remove? && Stop(c.number) < |s| {
      assert |Without(s, Stop(c.number))| != |s|;
    }
  }

  /** A number that is in the book removes that entry and no other from either book, the later ones moving up. */
  lemma RemovesThatEntry(s: seq<Record>, number: int, k: nat)
    requires 0 <= number < |s| && k < |s| - 1
    ensures ListRemove(s, number) == ArrayRemove(s, number) && |ListRemove(s, number)| == |s| - 1
    ensures ListRemove(s, number)[k] == s[if k < number then k else k + 1]
  {
  }

  /** Every command is a common one for the entries the list has by then. */
  predicate AllCommon(cs: seq<Command>) {
    cs != [] ==> AllCommon(cs[..|cs| - 1]) && Common(ListRun(cs[..|cs| - 1]), cs[|cs| - 1])
  }

  lemma LastDiffers<T>(a: seq<T>, x: T, b: seq<T>, y: T)
    ensures a + [x] == b + [y] <==> a == b && x == y
  {
    if a + [x] == b + [y] {
      assert (a + [x])[|a|] == x && (b + [y])[|b|] == y;
      assert a == (a + [x])[..|a|] == (b + [y])[..|b|] == b;
    }
  }

  /** Given the same commands the two books hold the same entries throughout exactly when every command is a common
      one, and then they give the same answers, the hits and counts of searches among them. */
  lemma {:induction false} SameBook(cs: seq<Command>)
    ensures AllCommon(cs) <==> ListStates(cs) == ArrayStates(cs)
    ensures AllCommon(cs) ==> ListRun(cs) == ArrayRun(cs) && ListAnswers(cs) == ArrayAnswers(cs)
  {
    if cs != [] {
      hide ListStep, ArrayStep, Common, ListAnswer, ArrayAnswer;
      var before, c := cs[..|cs| - 1], cs[|cs| - 1];
      SameBook(before);
      StepsAgreeIff(ListRun(before), c);
      LastDiffers(ListStates(before), ListRun(cs), ArrayStates(before), ArrayRun(cs));
    }
  }

  /** Both books, made new and given the same commands. */
  method RunBoth(cs: seq<Command>)
    returns (list: ListBook, table: ArrayBook, listAnswers: seq<Answer>, tableAnswers: seq<Answer>,
             ghost listStates: seq<seq<Record>>, ghost tableStates: seq<seq<Record>>)
    ensures list.Valid() && list.contents == ListRun(cs)
    ensures table.Valid() && table.Contents() == ArrayRun(cs)
    ensures listStates == ListStates(cs) && listAnswers == ListAnswers(cs)
    ensures tableStates == ArrayStates(cs) && tableAnswers == ArrayAnswers(cs)
    ensures AllCommon(cs) <==> listStates == tableStates
    ensures AllCommon(cs) ==> list.contents == table.Contents() && listAnswers == tableAnswers
  {
    hide ListBook.Valid, ArrayBook.Valid, ListStep, ListAnswer, ArrayStep, ArrayAnswer, AllCommon;
    list := new ListBook();
    table := new ArrayBook();
    listAnswers, tableAnswers, listStates, tableStates := [], [], [], [];
    for i := 0 to |cs|
      invariant fresh(list) && fresh(table) && fresh(table.book) && fresh(list.nodes)
      invariant list.Valid() && list.contents == ListRun(cs[..i])
      invariant table.Valid() && table.Contents() == ArrayRun(cs[..i])
      invariant listStates == ListStates(cs[..i]) && listAnswers == ListAnswers(cs[..i])
      invariant tableStates == ArrayStates(cs[..i]) && tableAnswers == ArrayAnswers(cs[..i])
    {
      assert cs[..i + 1][..i] == cs[..i];
      var fromList := list.Perform(cs[i]);
      var fromTable := table.Perform(cs[i]);
      listAnswers, tableAnswers := listAnswers + [fromList], tableAnswers + [fromTable];
      listStates, tableStates := listStates + [list.contents], tableStates + [table.Contents()];
    }
    assert cs[..|cs|] == cs;
    SameBook(cs);
  }
}
