/**
 The list of temporary files in glibc's test-skeleton.c, linked with `insque`.
 */
module TempFiles {

  // ----- The order of the list -----

  /** `insque` after the head: the first name stays first. */
  function Insert(names: seq<string>, name: string): seq<string> {
    if names == [] then [name] else [names[0], name] + names[1..]
  }

  /** The list after the names were added one by one. */
  function Listed(added: seq<string>): seq<string> {
    if added == [] then [] else Insert(Listed(added[..|added| - 1]), added[|added| - 1])
  }

  lemma {:induction false} ListedSnoc(added: seq<string>, name: string)
    ensures Listed(added + [name]) == Insert(Listed(added), name)
    ensures |Listed(added)| == 0 <==> added == []
  {
    assert (added + [name])[..|added|] == added;
  }

  function Reversed(s: seq<string>): seq<string> {
    if s == [] then [] else [s[|s| - 1]] + Reversed(s[..|s| - 1])
  }

  /** First added, then the rest from newest to oldest. */
  lemma {:induction false} ListedOrder(added: seq<string>)
    ensures Listed(added) == if added == [] then [] else [added[0]] + Reversed(added[1..])
    ensures |Listed(added)| == |added| && (added != [] ==> Listed(added)[0] == added[0])
    ensures forall i | 1 <= i < |added| :: Listed(added)[i] == added[|added| - i]
    decreases |added|
  {
    if |added| > 1 {
      var front, last := added[..|added| - 1], added[|added| - 1];
      ListedOrder(front);
      assert added[1..][..|added[1..]| - 1] == front[1..];
      assert Listed(front)[1..] == Reversed(front[1..]);
    } else if |added| == 1 {
      assert added == [added[0]];
    }
  }

  /** No name is lost, none is doubled. */
  lemma {:induction false} ListedKeepsNames(added: seq<string>)
    ensures multiset(Listed(added)) == multiset(added)
    decreases |added|
  {
    if added != [] {
      var front, last := added[..|added| - 1], added[|added| - 1];
      ListedKeepsNames(front);
      assert added == front + [last];
      var l := Listed(front);
      if l != [] {
        assert l == [l[0]] + l[1..];
      }
    }
  }

  // ----- The linked list -----

  class Node {
    var forw: Node?
    var back: Node?
    var name: string

    /** `calloc`, which zeroes the links, and the assignment of the name. */
    constructor (name: string)
      ensures forw == null && back == null && this.name == name
    {
      forw, back, this.name := null, null, name;
    }
  }

  ghost function At(ns: seq<Node>, i: int): Node? {
    if 0 <= i < |ns| then ns[i] else null
  }

  /** Distinct nodes, linked in this order in both directions. */
  ghost predicate IsChain(ns: seq<Node>)
    reads ns
  {
    && (forall i, j | 0 <= i < j < |ns| :: ns[i] != ns[j])
    && (forall i {:trigger ns[i].forw} | 0 <= i < |ns| :: ns[i].forw == At(ns, i + 1))
    && (forall i {:trigger ns[i].back} | 0 <= i < |ns| :: ns[i].back == At(ns, i - 1))
  }

  /** The links that `insque` leaves make a chain with `elem` after node `k`. */
  lemma SplicedChain(ns: seq<Node>, k: nat, elem: Node)
    requires k < |ns| && elem !in ns
    requires forall i, j | 0 <= i < j < |ns| :: ns[i] != ns[j]
    requires forall i {:trigger ns[i].forw} | 0 <= i < |ns| :: ns[i].forw == if i == k then elem else At(ns, i + 1)
    requires forall i {:trigger ns[i].back} | 0 <= i < |ns| :: ns[i].back == if i == k + 1 then elem else At(ns, i - 1)
    requires elem.forw == At(ns, k + 1) && elem.back == ns[k]
    ensures IsChain(ns[..k + 1] + [elem] + ns[k + 1..])
  {
    var new' := ns[..k + 1] + [elem] + ns[k + 1..];
    forall i | 0 <= i < |new'| ensures new'[i].forw == At(new', i + 1) && new'[i].back == At(new', i - 1) {
      if i <= k { assert new'[i] == ns[i]; } else if i > k + 1 { assert new'[i] == ns[i - 1]; }
    }
  }

  class TempNameList {
    var head: Node?               // temp_name_list
    var removed: seq<string>      // the calls of `remove`, in order
    ghost var nodes: seq<Node>
    ghost var added: seq<string>  // the names added since the list was last deleted

    ghost predicate Linked()
      reads this`nodes, nodes
    {
      IsChain(nodes)
    }

    ghost predicate Valid()
      reads this, nodes
    {
      head == At(nodes, 0) && Linked() && Named(Listed(added))
    }

    /** The nodes carry these names, in list order. */
    ghost predicate Named(names: seq<string>)
      reads this`nodes, nodes
    {
      |nodes| == |names| && forall i | 0 <= i < |nodes| :: nodes[i].name == names[i]
    }

    constructor ()
      ensures Valid() && added == [] && removed == []
    {
      head, removed, nodes, added := null, [], [], [];
    }

    /** `insque (elem, prev)`, where `prev` is NULL or any node of the list. */
    method Insque(elem: Node, prev: Node?, ghost k: nat)
      requires Linked() && elem !in nodes
      requires prev != null ==> k < |nodes| && nodes[k] == prev
      modifies this`nodes, nodes`forw, nodes`back, elem`forw, elem`back
      ensures Linked()
      ensures prev == null ==> nodes == old(nodes) && elem.forw == null && elem.back == null
      ensures prev != null ==> nodes == old(nodes)[..k + 1] + [elem] + old(nodes)[k + 1..]
    {
      if prev == null {
        elem.forw := null;
        elem.back := null;
      } else {
        var next := prev.forw;
        prev.forw := elem;
        if next != null { next.back := elem; }
        elem.forw := next;
        elem.back := prev;
        SplicedChain(nodes, k, elem);
        nodes := nodes[..k + 1] + [elem] + nodes[k + 1..];
      }
    }

    /** Inserting after the head, with the names. */
    method InsertAfterHead(elem: Node, ghost names: seq<string>)
      requires nodes != [] && head == nodes[0] && Linked() && Named(names) && elem !in nodes
      modifies this`nodes, nodes`forw, nodes`back, elem`forw, elem`back
      ensures nodes == [old(nodes)[0], elem] + old(nodes)[1..] && Linked()
      ensures Named(Insert(names, elem.name))
    {
      ghost var was := nodes;
      Insque(elem, head, 0);
      assert nodes == [was[0], elem] + was[1..];
    }

    /** The new node becomes the list, or follows its head. */
    method Link(elem: Node, ghost names: seq<string>)
      requires head == At(nodes, 0) && Linked() && Named(names) && elem !in nodes
      requires elem.forw == null && elem.back == null
      modifies this`head, this`nodes, nodes, elem
      ensures head == At(nodes, 0) && Linked() && Named(Insert(names, old(elem.name)))
    {
      if head == null {
        head, nodes := elem, [elem];
      } else {
        InsertAfterHead(elem, names);
      }
    }

    /** `add_temp_file (name)`; `oom` says whether `calloc` fails. */
    method AddTempFile(name: string, oom: bool)
      requires Valid()
      modifies this, nodes
      ensures Valid() && removed == old(removed)
      ensures added == if oom then old(added) else old(added) + [name]
    {
      if oom { return; }
      ghost var names := Listed(added);
      var elem := new Node(name);
      Link(elem, names);
      ListedSnoc(added, name);
      added := added + [name];
    }

    /** `delete_temp_files ()`: removes every name in list order, and so (by
        ListedKeepsNames) each as often as it was added. */
    method DeleteTempFiles()
      requires Valid()
      modifies this
      ensures Valid() && added == [] && head == null
      ensures removed == old(removed) + Listed(old(added))
    {
      ghost var i, names := 0, Listed(added);
      while head != null
        invariant 0 <= i <= |nodes| && nodes == old(nodes) && added == old(added) && Linked()
        invariant Named(names)
        invariant head == At(nodes, i)
        invariant removed == old(removed) + names[..i]
        decreases |nodes| - i
      {
        assert names[..i + 1] == names[..i] + [names[i]];
        removed := removed + [head.name];
        head := head.forw;
        i := i + 1;
      }
      assert names[..i] == names;
      nodes, added := [], [];
    }
  }
}
