/** The doubly linked list of src/lib/list.c as nodes on the heap. */
module LinkedList {
  import opened Octets

  class Node {
    var data: Bytes
    var prev: Node?
    var next: Node?

    constructor (data: Bytes)
      ensures this.data == data && prev == null && next == null
    {
      this.data := data;
      prev, next := null, null;
    }
  }

  function Reverse<T>(s: seq<T>): (r: seq<T>)
  {
    if s == [] then [] else [s[|s| - 1]] + Reverse(s[..|s| - 1])
  }

  lemma {:induction false} ReverseAt<T>(s: seq<T>, k: nat)
    requires k < |s|
    ensures |Reverse(s)| == |s| && Reverse(s)[k] == s[|s| - 1 - k]
  {
    if |s| > 1 {
      ReverseAt(s[..|s| - 1], if k > 0 then k - 1 else 0);
    }
  }

  /** `list_head`.  `nodes` is the chain from `first` to `last`. */
  class List {
    var first: Node?
    var last: Node?
    var length: nat
    ghost var nodes: seq<Node>

    ghost var contents: seq<Bytes> // the sequence the list stands for

    /** The node at `i` holds the item at `i` and points to its two neighbours. */
    ghost predicate LinkedAt(i: nat)
      requires i < |nodes| && |contents| == |nodes|
      reads this, nodes
    {
      nodes[i].data == contents[i]
      && nodes[i].prev == (if i == 0 then null else nodes[i - 1])
      && nodes[i].next == At(i + 1)
    }

    ghost predicate Valid()
      reads this, nodes
    {
      length == |nodes| && |contents| == |nodes|
      && (forall i, j :: 0 <= i < j < |nodes| ==> nodes[i] != nodes[j])
      && (forall i :: 0 <= i < |nodes| ==> LinkedAt(i))
      && first == At(0)
      && last == (if nodes == [] then null else nodes[|nodes| - 1])
    }

    constructor ()
      ensures Valid() && nodes == [] && contents == []
    {
      first, last, length, nodes, contents := null, null, 0, [], [];
    }

    /** The node at position `k`, or null past the end. */
    ghost function At(k: nat): Node?
      reads this
    {
      if k < |nodes| then nodes[k] else null
    }

    /** `list_do_insert`: before `where`, or at the end when `where` is null; nothing is inserted
        for an empty item. */
    method DoInsert(where: Node?, data: Bytes, ghost k: nat) returns (item: Node?)
      requires Valid() && k <= |nodes| && where == At(k)
      modifies this, nodes
      ensures Valid()
      ensures data == [] ==> item == null && nodes == old(nodes) && contents == old(contents)
      ensures data != [] ==> item != null && fresh(item) && nodes == old(nodes[..k]) + [item] + old(nodes[k..])
      ensures data != [] ==> contents == old(contents)[..k] + [data] + old(contents)[k..]
    {
      if data == [] {
        return null;
      }
      var n := new Node(data);
      if first == null {
        first := n;
        last := n;
        length := length + 1;
        nodes, contents := [n], [data];
        assert LinkedAt(0);
      } else if where != null {
        LinkBefore(n, where, k);
      } else {
        LinkLast(n);
        assert old(nodes[k..]) == [] && old(contents)[k..] == [];
      }
      item := n;
    }

    method LinkBefore(n: Node, where: Node, ghost k: nat)
      requires Valid() && k < |nodes| && where == nodes[k] && n !in nodes && n.prev == null && n.next == null
      modifies this, nodes, n
      ensures Valid()
      ensures nodes == old(nodes)[..k] + [n] + old(nodes)[k..]
      ensures contents == old(contents)[..k] + [old(n.data)] + old(contents)[k..]
    {
      assert LinkedAt(k);
      n.next := where;
      n.prev := where.prev;
      if where.prev != null {
        where.prev.next := n;
      }
      where.prev := n;
      if first == where {
        first := n;
      }
      length := length + 1;
      ghost var was := nodes;
      nodes := nodes[..k] + [n] + nodes[k..];
      contents := contents[..k] + [n.data] + contents[k..];
      assert forall i :: 0 <= i < k ==> nodes[i] == was[i];
      assert nodes[k] == n && forall i :: k < i < |nodes| ==> nodes[i] == was[i - 1];
      forall i | 0 <= i < |nodes| ensures LinkedAt(i) {
        if i < k {
          assert old(LinkedAt(i));
        } else if i > k {
          assert old(LinkedAt(i - 1));
        }
      }
    }

    method LinkLast(n: Node)
      requires Valid() && nodes != [] && n !in nodes && n.prev == null && n.next == null
      modifies this, nodes, n
      ensures Valid()
      ensures nodes == old(nodes) + [n] && contents == old(contents) + [old(n.data)]
    {
      n.prev := last;
      last.next := n;
      last := n;
      length := length + 1;
      nodes := nodes + [n];
      contents := contents + [n.data];
      forall i | 0 <= i < |nodes| ensures LinkedAt(i) {
        if i < |nodes| - 1 {
          assert old(LinkedAt(i));
        }
      }
    }

    /** `list_remove`. */
    method Remove(item: Node, ghost k: nat)
      requires Valid() && k < |nodes| && item == nodes[k]
      modifies this, nodes
      ensures Valid()
      ensures nodes == old(nodes[..k]) + old(nodes[k + 1..])
      ensures contents == old(contents)[..k] + old(contents)[k + 1..]
    {
      assert LinkedAt(k);
      if item.next != null {
        item.next.prev := item.prev;
      }
      if item.prev != null {
        item.prev.next := item.next;
      }
      if item == first {
        first := item.next;
      }
      if item == last {
        last := item.prev;
      }
      nodes := nodes[..k] + nodes[k + 1..];
      contents := contents[..k] + contents[k + 1..];
      length := length - 1;
      assert forall i :: 0 <= i < |nodes| ==> nodes[i] == old(nodes)[if i < k then i else i + 1];
      forall i | 0 <= i < |nodes| ensures LinkedAt(i) {
        assert old(LinkedAt(if i < k then i else i + 1));
      }
    }

    /** `list_append`. */
    method Append(data: Bytes) returns (item: Node?)
      requires Valid()
      modifies this, nodes
      ensures Valid() && (item == null <==> data == [])
      ensures forall i :: 0 <= i < |nodes| ==> nodes[i] in old(nodes) || fresh(nodes[i])
      ensures contents == Applied(old(contents), OpAppend(data))
    {
      item := DoInsert(null, data, |nodes|);
    }

    /** `list_insert`: in front of the first item. */
    method Insert(data: Bytes) returns (item: Node?)
      requires Valid()
      modifies this, nodes
      ensures Valid() && (item == null <==> data == [])
      ensures forall i :: 0 <= i < |nodes| ==> nodes[i] in old(nodes) || fresh(nodes[i])
      ensures contents == Applied(old(contents), OpInsert(data))
    {
      item := DoInsert(first, data, 0);
    }

    /** `list_insert_before`. */
    method InsertBefore(where: Node, data: Bytes, ghost k: nat) returns (item: Node?)
      requires Valid() && k < |nodes| && where == nodes[k]
      modifies this, nodes
      ensures Valid() && (item == null <==> data == [])
      ensures forall i :: 0 <= i < |nodes| ==> nodes[i] in old(nodes) || fresh(nodes[i])
      ensures contents == Applied(old(contents), OpBefore(k, data))
    {
      item := DoInsert(where, data, k);
    }

    /** `list_insert_after`: before the next item, which appends after the last one. */
    method InsertAfter(where: Node, data: Bytes, ghost k: nat) returns (item: Node?)
      requires Valid() && k < |nodes| && where == nodes[k]
      modifies this, nodes
      ensures Valid() && (item == null <==> data == [])
      ensures forall i :: 0 <= i < |nodes| ==> nodes[i] in old(nodes) || fresh(nodes[i])
      ensures contents == Applied(old(contents), OpAfter(k, data))
    {
      assert LinkedAt(k);
      item := DoInsert(where.next, data, k + 1);
    }

    /** `list_next` from the front, to the end. */
    method Forward() returns (s: seq<Bytes>)
      requires Valid()
      ensures s == contents
    {
      s := [];
      ghost var k := 0;
      var item := first;
      while item != null
        invariant k <= |nodes| && item == At(k) && s == contents[..k]
        decreases |nodes| - k
      {
        assert LinkedAt(k);
        s := s + [item.data];
        item := item.next;
        k := k + 1;
      }
    }

    /** `list_prev` from the back, to the front. */
    method Backward() returns (s: seq<Bytes>)
      requires Valid()
      ensures s == Reverse(contents)
    {
      s := [];
      ghost var k := |nodes|;
      var item := last;
      assert contents[..k] == contents;
      while item != null
        invariant 0 <= k <= |nodes| && item == (if k == 0 then null else nodes[k - 1])
        invariant s + Reverse(contents[..k]) == Reverse(contents)
        decreases k
      {
        ghost var c := contents;
        assert LinkedAt(k - 1);
        assert c[..k][..k - 1] == c[..k - 1];
        Assoc(s, [c[k - 1]], Reverse(c[..k - 1]));
        s := s + [item.data];
        item := item.prev;
        k := k - 1;
      }
      assert s + [] == s;
    }

    /** `list_do_find`: the first item from position `from` on whose data starts with `data`. */
    method DoFind(item: Node?, data: Bytes, ghost from: nat) returns (r: Node?, ghost at: nat)
      requires Valid() && from <= |nodes| && item == At(from)
      ensures data == [] ==> r == null
      ensures data != [] ==> from <= at <= |nodes| && r == At(at)
      ensures data != [] ==> forall i :: from <= i < at ==> !(data <= contents[i])
      ensures r != null ==> at < |nodes| && data <= contents[at]
    {
      at := from;
      r := item;
      if item == null || data == [] {
        if data == [] {
          r := null;
        }
        return;
      }
      while r != null
        invariant from <= at <= |nodes| && r == At(at)
        invariant forall i :: from <= i < at ==> !(data <= contents[i])
        decreases |nodes| - at
      {
        assert LinkedAt(at);
        if data <= r.data {
          break;
        }
        r, at := r.next, at + 1;
      }
    }

    /** `list_find`. */
    method Find(data: Bytes) returns (r: Node?, ghost at: nat)
      requires Valid()
      ensures data == [] ==> r == null
      ensures data != [] ==> at <= |nodes| && r == At(at) && forall i :: 0 <= i < at ==> !(data <= contents[i])
      ensures r != null ==> at < |nodes| && data <= contents[at]
    {
      r, at := DoFind(first, data, 0);
    }

    /** `list_find_next`: the next match after an item. */
    method FindNext(item: Node, data: Bytes, ghost k: nat) returns (r: Node?, ghost at: nat)
      requires Valid() && k < |nodes| && item == nodes[k]
      ensures data == [] ==> r == null
      ensures data != [] ==> k < at <= |nodes| && r == At(at) && forall i :: k < i < at ==> !(data <= contents[i])
      ensures r != null ==> at < |nodes| && data <= contents[at]
    {
      assert LinkedAt(k);
      r, at := DoFind(item.next, data, k + 1);
    }

    /** All matches, by `list_find` and repeated `list_find_next`: exactly the matching items, each
        once and in order. */
    method FindAll(data: Bytes) returns (found: seq<Bytes>)
      requires Valid() && data != []
      ensures found == Matches(contents, data)
    {
      found := [];
      var r;
      ghost var at;
      r, at := Find(data);
      NoMatches(contents, data, 0, at);
      while r != null
        invariant at <= |nodes| && r == At(at) && (r != null ==> data <= contents[at])
        invariant found == Matches(contents[..at], data)
        decreases |nodes| - at
      {
        assert LinkedAt(at);
        found := found + [r.data];
        ghost var was := at;
        TakeSnoc(contents, was);
        r, at := FindNext(r, data, at);
        NoMatches(contents, data, was + 1, at);
      }
      assert contents[..at] == contents;
    }

    /** `list_destroy`: `freed` lists the calls of `free` on items, in order. */
    method Destroy() returns (freed: seq<Node>)
      requires Valid()
      modifies this
      ensures freed == old(nodes) && Valid() && nodes == []
    {
      freed := [];
      var item := first;
      while item != null
        invariant |freed| <= |nodes| && freed == nodes[..|freed|] && item == At(|freed|)
        decreases |nodes| - |freed|
      {
        assert LinkedAt(|freed|);
        var next := item.next;
        freed := freed + [item];
        item := next;
      }
      first, last, length, nodes, contents := null, null, 0, [], [];
    }

    /** The node at a position, by walking. */
    method Nth(k: nat) returns (item: Node)
      requires Valid() && k < |nodes|
      ensures item == nodes[k]
    {
      item := first;
      for i := 0 to k
        invariant item == nodes[i]
      {
        assert LinkedAt(i);
        item := item.next;
      }
    }

    method Apply(op: Op)
      requires Valid()
      modifies this, nodes
      ensures Valid() && contents == Applied(old(contents), op)
      ensures forall i :: 0 <= i < |nodes| ==> nodes[i] in old(nodes) || fresh(nodes[i])
    {
      match op
      case OpAppend(d) =>
        var _ := Append(d);
      case OpInsert(d) =>
        var _ := Insert(d);
      case OpBefore(k, d) =>
        if k < length {
          var where := Nth(k);
          var _ := InsertBefore(where, d, k);
        }
      case OpAfter(k, d) =>
        if k < length {
          var where := Nth(k);
          var _ := InsertAfter(where, d, k);
        }
      case OpRemove(k) =>
        if k < length {
          var item := Nth(k);
          Remove(item, k);
        }
    }
  }

  /** The items whose data starts with `data`. */
  function Matches(s: seq<Bytes>, data: Bytes): (r: seq<Bytes>)
  {
    if s == [] then []
    else Matches(s[..|s| - 1], data) + (if data <= s[|s| - 1] then [s[|s| - 1]] else [])
  }

  lemma {:induction false} NoMatches(s: seq<Bytes>, data: Bytes, i: nat, j: nat)
    requires i <= j <= |s| && forall n :: i <= n < j ==> !(data <= s[n])
    ensures Matches(s[..j], data) == Matches(s[..i], data)
  {
    if i < j {
      NoMatches(s, data, i, j - 1);
      TakeSnoc(s, j - 1);
    }
  }

  /** An operation on the list; positions refer to the current sequence. */
  datatype Op =
    | OpAppend(data: Bytes)
    | OpInsert(data: Bytes)
    | OpBefore(k: nat, data: Bytes)
    | OpAfter(k: nat, data: Bytes)
    | OpRemove(k: nat)

  function Inserted(s: seq<Bytes>, k: nat, data: Bytes): (r: seq<Bytes>)
    requires k <= |s|
  {
    if data == [] then s else s[..k] + [data] + s[k..]
  }

  /** The same operation on a sequence. */
  function Applied(s: seq<Bytes>, op: Op): (r: seq<Bytes>)
  {
    match op
    case OpAppend(d) => Inserted(s, |s|, d)
    case OpInsert(d) => Inserted(s, 0, d)
    case OpBefore(k, d) => if k < |s| then Inserted(s, k, d) else s
    case OpAfter(k, d) => if k < |s| then Inserted(s, k + 1, d) else s
    case OpRemove(k) => if k < |s| then s[..k] + s[k + 1..] else s
  }

  function AppliedAll(s: seq<Bytes>, ops: seq<Op>): (r: seq<Bytes>)
  {
    if ops == [] then s else Applied(AppliedAll(s, ops[..|ops| - 1]), ops[|ops| - 1])
  }

  /** Any run of operations on a new list, including emptying and refilling it: the traversals in
      both directions are those of the sequence, and destroying it frees each node once. */
  method RunList(ops: seq<Op>) returns (forward: seq<Bytes>, backward: seq<Bytes>, count: nat, freed: nat)
    ensures forward == AppliedAll([], ops) && backward == Reverse(forward)
    ensures count == |forward| && freed == count
  {
    var list := new List();
    for i := 0 to |ops|
      invariant fresh(list) && forall i :: 0 <= i < |list.nodes| ==> fresh(list.nodes[i])
      invariant list.Valid() && list.contents == AppliedAll([], ops[..i])
    {
      TakeSnoc(ops, i);
      list.Apply(ops[i]);
    }
    assert ops[..|ops|] == ops;
    forward := list.Forward();
    backward := list.Backward();
    count := list.length;
    var calls := list.Destroy();
    freed := |calls|;
  }
}
