/** JsonObject.hpp and List.hpp: a singly linked list of key-value pairs, used as a
    dictionary that keeps the order of insertion. Keys are the texts before the NUL. */
module JsonObjects {
  import opened Wrappers

  datatype Entry<V> = Entry(key: string, value: V)

  ghost predicate UniqueKeys<V>(entries: seq<Entry<V>>) {
    forall i, j :: 0 <= i < j < |entries| ==> entries[i].key != entries[j].key
  }

  /** Where the key is first from i on; the length if it is nowhere. */
  ghost function IndexFrom<V>(entries: seq<Entry<V>>, key: string, i: nat): (r: nat)
    requires i <= |entries|
    ensures i <= r <= |entries| && (r < |entries| ==> entries[r].key == key)
    ensures forall j :: i <= j < r ==> entries[j].key != key
    decreases |entries| - i
  {
    if i == |entries| || entries[i].key == key then i else IndexFrom(entries, key, i + 1)
  }

  ghost function IndexOf<V>(entries: seq<Entry<V>>, key: string): (r: nat)
    ensures r <= |entries| && (r < |entries| ==> entries[r].key == key)
    ensures forall j :: 0 <= j < r ==> entries[j].key != key
  {
    IndexFrom(entries, key, 0)
  }

  ghost predicate Has<V>(entries: seq<Entry<V>>, key: string) {
    IndexOf(entries, key) < |entries|
  }

  /** What looking a key up gives. */
  ghost function Found<V>(entries: seq<Entry<V>>, key: string): Option<V> {
    if Has(entries, key) then Some(entries[IndexOf(entries, key)].value) else None
  }

  ghost function Put<V>(entries: seq<Entry<V>>, key: string, value: V): seq<Entry<V>> {
    var i := IndexOf(entries, key);
    if i < |entries| then entries[i := Entry(key, value)] else entries + [Entry(key, value)]
  }

  ghost function Without<V>(entries: seq<Entry<V>>, key: string): seq<Entry<V>> {
    var i := IndexOf(entries, key);
    if i < |entries| then entries[..i] + entries[i + 1..] else entries
  }

  ghost function Keys<V>(entries: seq<Entry<V>>): (keys: seq<string>)
    ensures |keys| == |entries|
  {
    seq(|entries|, i requires 0 <= i < |entries| => entries[i].key)
  }

  /** The map that the entries stand for. */
  ghost function AsMap<V>(entries: seq<Entry<V>>): map<string, V> {
    map key | key in Keys(entries) && Has(entries, key) :: entries[IndexOf(entries, key)].value
  }

  datatype Operation<V> = Set(key: string, value: V, granted: bool) | Remove(key: string)

  /** A set that needs a node and is not granted one fails, and changes nothing. */
  ghost function Apply<V>(entries: seq<Entry<V>>, op: Operation<V>): seq<Entry<V>> {
    match op
    case Set(key, value, granted) => if granted || Has(entries, key) then Put(entries, key, value) else entries
    case Remove(key) => Without(entries, key)
  }

  ghost function ApplyAll<V>(entries: seq<Entry<V>>, ops: seq<Operation<V>>): seq<Entry<V>>
    decreases |ops|
  {
    if ops == [] then entries else ApplyAll(Apply(entries, ops[0]), ops[1..])
  }

  ghost function MapAll<V>(m: map<string, V>, ops: seq<Operation<V>>): map<string, V>
    decreases |ops|
  {
    if ops == [] then m else MapAll(MapStep(m, ops[0]), ops[1..])
  }

  ghost function MapStep<V>(m: map<string, V>, op: Operation<V>): map<string, V> {
    match op
    case Set(key, value, granted) => if granted || key in m then m[key := value] else m
    case Remove(key) => m - {key}
  }

  /** Looking a key up in the entries looks it up in the map. */
  lemma LookupIsMap<V>(entries: seq<Entry<V>>, key: string)
    ensures Found(entries, key) == if key in AsMap(entries) then Some(AsMap(entries)[key]) else None
  {
    if Has(entries, key) {
      assert Keys(entries)[IndexOf(entries, key)] == key;
    }
  }

  /** Entries stand for the map that agrees with every lookup. */
  lemma MapByLookup<V>(entries: seq<Entry<V>>, m: map<string, V>)
    requires forall key :: Found(entries, key) == if key in m then Some(m[key]) else None
    ensures AsMap(entries) == m
  {
    forall key
      ensures key in AsMap(entries) <==> key in m
      ensures key in m ==> AsMap(entries)[key] == m[key]
    {
      LookupIsMap(entries, key);
    }
  }

  /** The key at i, if it is nowhere before, is found at i. */
  lemma FoundAt<V>(entries: seq<Entry<V>>, i: nat)
    requires i < |entries| && forall j :: 0 <= j < i ==> entries[j].key != entries[i].key
    ensures IndexOf(entries, entries[i].key) == i
  {
  }

  lemma FoundNowhere<V>(entries: seq<Entry<V>>, key: string)
    requires forall j :: 0 <= j < |entries| ==> entries[j].key != key
    ensures Found(entries, key) == None
  {
  }

  lemma FoundAppended<V>(entries: seq<Entry<V>>, last: Entry<V>, key: string)
    ensures Found(entries + [last], key) ==
            if Has(entries, key) then Found(entries, key) else if key == last.key then Some(last.value) else None
  {
    var after := entries + [last];
    var i := IndexOf(entries, key);
    if i < |entries| || key == last.key {
      assert after[i].key == key;
      FoundAt(after, i);
    } else {
      FoundNowhere(after, key);
    }
  }

  /** size() is the size of the map. */
  lemma {:induction false} SizeIsMap<V>(entries: seq<Entry<V>>)
    requires UniqueKeys(entries)
    ensures |AsMap(entries)| == |entries|
  {
    if entries != [] {
      var front, last := entries[..|entries| - 1], entries[|entries| - 1];
      assert UniqueKeys(front);
      SizeIsMap(front);
      assert entries == front + [last];
      NewLast(front, last);
    }
  }

  lemma NewLast<V>(front: seq<Entry<V>>, last: Entry<V>)
    requires UniqueKeys(front + [last])
    ensures AsMap(front + [last]) == AsMap(front)[last.key := last.value] && last.key !in AsMap(front)
  {
    var entries := front + [last];
    assert forall i :: 0 <= i < |front| ==> front[i] == entries[i];
    assert entries[|front|] == last;
    FoundNowhere(front, last.key);
    LookupIsMap(front, last.key);
    var m := AsMap(front)[last.key := last.value];
    forall key
      ensures Found(entries, key) == if key in m then Some(m[key]) else None
    {
      FoundAppended(front, last, key);
      LookupIsMap(front, key);
    }
    MapByLookup(entries, m);
  }

  lemma FoundAfterPut<V>(entries: seq<Entry<V>>, key: string, value: V, k: string)
    ensures Found(Put(entries, key, value), k) == if k == key then Some(value) else Found(entries, k)
  {
    var after := Put(entries, key, value);
    if !Has(entries, key) {
      FoundAppended(entries, Entry(key, value), k);
    } else if Has(entries, k) {
      FoundAt(after, IndexOf(entries, k));
    } else {
      FoundNowhere(after, k);
    }
  }

  lemma FoundAfterWithout<V>(entries: seq<Entry<V>>, key: string, k: string)
    requires UniqueKeys(entries)
    ensures Found(Without(entries, key), k) == if k == key then None else Found(entries, k)
  {
    var after := Without(entries, key);
    var i, n := IndexOf(entries, key), IndexOf(entries, k);
    if k != key && n < |entries| {
      var m: nat := if n < i then n else n - 1;
      assert after[m] == entries[n];
      FoundAt(after, m);
    } else {
      FoundNowhere(after, k);
    }
  }

  /** Putting is replacing the value at the place of the key, once there is one. */
  lemma PutAt<V>(before: seq<Entry<V>>, middle: seq<Entry<V>>, key: string, value: V)
    requires UniqueKeys(before)
    requires var i := IndexOf(before, key);
             && i < |middle| && middle[i].key == key
             && (i < |before| ==> middle == before)
             && (i == |before| ==> |middle| == i + 1 && middle[..i] == before)
    ensures middle[IndexOf(before, key) := Entry(key, value)] == Put(before, key, value)
    ensures UniqueKeys(Put(before, key, value))
  {
    PutUnique(before, key, value);
  }

  lemma PutUnique<V>(entries: seq<Entry<V>>, key: string, value: V)
    requires UniqueKeys(entries)
    ensures UniqueKeys(Put(entries, key, value))
  {
  }

  /** Put is a map update; a key keeps its place, and a new key goes last. */
  lemma PutRefines<V>(entries: seq<Entry<V>>, key: string, value: V)
    requires UniqueKeys(entries)
    ensures AsMap(Put(entries, key, value)) == AsMap(entries)[key := value]
    ensures Keys(Put(entries, key, value)) == Keys(entries) + (if key in AsMap(entries) then [] else [key])
  {
    LookupIsMap(entries, key);
    forall k
      ensures Found(Put(entries, key, value), k) ==
              if k in AsMap(entries)[key := value] then Some(AsMap(entries)[key := value][k]) else None
    {
      FoundAfterPut(entries, key, value, k);
      LookupIsMap(entries, k);
    }
    MapByLookup(Put(entries, key, value), AsMap(entries)[key := value]);
  }

  /** Without is a map removal. */
  lemma WithoutRefines<V>(entries: seq<Entry<V>>, key: string)
    requires UniqueKeys(entries)
    ensures AsMap(Without(entries, key)) == AsMap(entries) - {key}
  {
    forall k
      ensures Found(Without(entries, key), k) ==
              if k in AsMap(entries) - {key} then Some((AsMap(entries) - {key})[k]) else None
    {
      FoundAfterWithout(entries, key, k);
      LookupIsMap(entries, k);
    }
    MapByLookup(Without(entries, key), AsMap(entries) - {key});
  }

  /** The other keys keep their order. */
  lemma WithoutKeys<V>(entries: seq<Entry<V>>, key: string)
    ensures var i := IndexOf(entries, key);
            Keys(Without(entries, key)) ==
            if i < |entries| then Keys(entries)[..i] + Keys(entries)[i + 1..] else Keys(entries)
  {
  }

  lemma WithoutUnique<V>(entries: seq<Entry<V>>, key: string)
    requires UniqueKeys(entries)
    ensures UniqueKeys(Without(entries, key))
  {
    var i, after := IndexOf(entries, key), Without(entries, key);
    assert forall j :: 0 <= j < |after| ==> after[j] == entries[if j < i then j else j + 1];
  }

  lemma StepRefines<V>(entries: seq<Entry<V>>, op: Operation<V>)
    requires UniqueKeys(entries)
    ensures UniqueKeys(Apply(entries, op))
    ensures AsMap(Apply(entries, op)) == MapStep(AsMap(entries), op)
  {
    LookupIsMap(entries, op.key);
    match op
    case Set(key, value, _) =>
      PutUnique(entries, key, value);
      PutRefines(entries, key, value);
    case Remove(key) =>
      WithoutUnique(entries, key);
      WithoutRefines(entries, key);
  }

  /** Any run of operations acts as the same run on the map. */
  lemma {:induction false} RunRefines<V>(entries: seq<Entry<V>>, ops: seq<Operation<V>>)
    requires UniqueKeys(entries)
    ensures UniqueKeys(ApplyAll(entries, ops))
    ensures AsMap(ApplyAll(entries, ops)) == MapAll(AsMap(entries), ops)
    ensures |ApplyAll(entries, ops)| == |MapAll(AsMap(entries), ops)|
    decreases |ops|
  {
    if ops == [] {
      SizeIsMap(entries);
    } else {
      StepRefines(entries, ops[0]);
      RunRefines(Apply(entries, ops[0]), ops[1..]);
    }
  }

  class Node<V> {
    var key: Option<string>  // NULL is None
    var value: V
    var next: Node?<V>

    /** The content is set later. */
    constructor (value: V)
      ensures next == null && key == None && this.value == value
    {
      key, this.value, next := None, value, null;
    }

    /** What the node stands for in the map. */
    ghost function Content(): Entry<V>
      reads this
    {
      Entry(if key.Some? then key.value else "", value)
    }
  }

  /** The i-th node, or NULL past the end. */
  ghost function At<V>(nodes: seq<Node<V>>, i: nat): Node?<V> {
    if i < |nodes| then nodes[i] else null
  }

  class JsonObject<V> {
    const attached: bool  // whether there is a buffer
    const undefined: V    // JsonVariant()
    var firstNode: Node?<V>
    ghost var nodes: seq<Node<V>>

    /** The list from firstNode is these nodes, each once. */
    ghost predicate Linked()
      reads this, nodes
    {
      && firstNode == At(nodes, 0)
      && (forall i {:trigger nodes[i].next} :: 0 <= i < |nodes| ==> nodes[i].next == At(nodes, i + 1))
      && (forall i, j :: 0 <= i < j < |nodes| ==> nodes[i] != nodes[j])
    }

    ghost function Entries(): (entries: seq<Entry<V>>)
      reads this, nodes
      ensures |entries| == |nodes|
      ensures forall i :: 0 <= i < |nodes| ==> entries[i] == nodes[i].Content()
    {
      seq(|nodes|, i requires 0 <= i < |nodes| reads this, nodes => nodes[i].Content())
    }

    /** No key is NULL, so that all can be compared. */
    ghost predicate Named()
      reads this, nodes
    {
      forall node <- nodes :: node.key.Some?
    }

    ghost predicate Valid()
      reads this, nodes
    {
      Linked() && Named() && UniqueKeys(Entries())
    }

    constructor (attached: bool, undefined: V)
      ensures Valid() && Entries() == [] && this.attached == attached && this.undefined == undefined
    {
      this.attached, this.undefined, firstNode, nodes := attached, undefined, null, [];
    }

    method Size() returns (nodeCount: nat)
      requires Valid()
      ensures nodeCount == |Entries()| == |AsMap(Entries())|
    {
      nodeCount := 0;
      var node := firstNode;
      while node != null
        invariant nodeCount <= |nodes| && node == At(nodes, nodeCount)
        decreases |nodes| - nodeCount
      {
        nodeCount := nodeCount + 1;
        node := node.next;
      }
      SizeIsMap(Entries());
    }

    method GetNodeAt(key: string) returns (node: Node?<V>)
      requires Linked() && Named()
      ensures node == At(nodes, IndexOf(Entries(), key))
    {
      node := firstNode;
      ghost var i: nat := 0;
      while node != null
        invariant i <= |nodes| && node == At(nodes, i)
        invariant IndexOf(Entries(), key) == IndexFrom(Entries(), key, i)
        decreases |nodes| - i
      {
        assert Entries()[i] == node.Content();
        if node.key == Some(key) {
          return;
        }
        node := node.next;
        i := i + 1;
      }
    }

    method Get(key: string) returns (value: V)
      requires Valid()
      ensures value == if key in AsMap(Entries()) then AsMap(Entries())[key] else undefined
    {
      LookupIsMap(Entries(), key);
      var node := GetNodeAt(key);
      value := if node != null then node.value else undefined;
    }

    method ContainsKey(key: string) returns (b: bool)
      requires Valid()
      ensures b <==> key in AsMap(Entries())
    {
      LookupIsMap(Entries(), key);
      var node := GetNodeAt(key);
      b := node != null;
    }

    /** new (_buffer) node_type(): NULL without a buffer or when the buffer does not grant it. */
    method NewNode(granted: bool) returns (node: Node?<V>)
      ensures node != null <==> attached && granted
      ensures node != null ==> fresh(node) && node.next == null && node.key == None
    {
      if !attached || !granted {
        return null;
      }
      node := new Node(undefined);
    }

    method LastNode() returns (lastNode: Node<V>)
      requires Linked() && firstNode != null
      ensures nodes != [] && lastNode == nodes[|nodes| - 1]
    {
      lastNode := firstNode;
      ghost var i: nat := 0;
      while lastNode.next != null
        invariant i < |nodes| && lastNode == nodes[i]
        decreases |nodes| - i
      {
        lastNode := lastNode.next;
        i := i + 1;
      }
    }

    /** A node at the end of the list, or NULL and no change. */
    method AddNewNode(granted: bool) returns (newNode: Node?<V>)
      requires Linked()
      modifies this, nodes
      ensures Linked() && (newNode != null <==> attached && granted) && (newNode != null ==> fresh(newNode))
      ensures nodes == if newNode == null then old(nodes) else old(nodes) + [newNode]
      ensures newNode != null ==> newNode.key == None
      ensures forall node <- old(nodes) :: node.key == old(node.key) && node.value == old(node.value)
    {
      newNode := NewNode(granted);
      if firstNode != null {
        var lastNode := LastNode();
        lastNode.next := newNode;
      } else {
        firstNode := newNode;
      }
      if newNode != null {
        nodes := nodes + [newNode];
      }
    }

    /** set(), with the buffer's answers to the requests for a node and for a copy of the key:
        a map update in place or at the end. Without a node for a new key it fails and changes
        nothing; when the key is then to be copied and the copy fails, the new node stays in
        the list without a key. */
    method Set(key: string, value: V, needsCopy: bool, nodeGranted: bool, copyGranted: bool) returns (ok: bool)
      requires Valid()
      modifies this, nodes
      ensures ok <==> old(Has(Entries(), key)) || (attached && nodeGranted && (!needsCopy || copyGranted))
      ensures !ok && nodes != old(nodes) <==>
              !old(Has(Entries(), key)) && attached && nodeGranted && needsCopy && !copyGranted
      ensures old(Has(Entries(), key)) ==> nodes == old(nodes)
      ensures ok || nodes == old(nodes) ==>
                Valid() && Entries() == Apply(old(Entries()), Operation.Set(key, value, ok))
      ensures !ok && nodes != old(nodes) ==>
                && Linked() && !Named()
                && |nodes| == |old(nodes)| + 1 && Entries()[..|old(nodes)|] == old(Entries())
    {
      ghost var before, i := Entries(), IndexOf(Entries(), key);
      var node := GetNodeAt(key);
      if node == null {
        node := AddKeyedNode(key, needsCopy, nodeGranted, copyGranted);
        if node == null {
          return false;
        }
      }
      ghost var middle := Entries();
      SetNodeValue(node, i, value);
      PutAt(before, middle, key, value);
      ok := true;
    }

    /** A new last node with this key; NULL when either cannot be had. */
    method AddKeyedNode(key: string, needsCopy: bool, nodeGranted: bool, copyGranted: bool) returns (node: Node?<V>)
      requires Linked() && Named()
      modifies this, nodes
      ensures node != null <==> attached && nodeGranted && (!needsCopy || copyGranted)
      ensures nodes != old(nodes) <==> attached && nodeGranted
      ensures Linked() && (node == null && nodes == old(nodes) ==> Named() && Entries() == old(Entries()))
      ensures node != null ==> fresh(node) && nodes == old(nodes) + [node] && Named() && node.key == Some(key)
      ensures node == null && nodes != old(nodes) ==>
                |nodes| == |old(nodes)| + 1 && nodes[|nodes| - 1].key == None
      ensures |nodes| >= |old(nodes)| && Entries()[..|old(nodes)|] == old(Entries())
    {
      ghost var i := |nodes|;
      node := AddNewNode(nodeGranted);
      if node != null {
        var ok := SetNodeKey(node, i, key, needsCopy, copyGranted);
        if !ok {
          return null;
        }
      }
    }

    /** setNodeKey(): the key itself, or a copy of it if there is room for one. */
    method SetNodeKey(node: Node<V>, ghost i: nat, key: string, needsCopy: bool, granted: bool) returns (ok: bool)
      requires Linked() && i < |nodes| && node == nodes[i]
      modifies node
      ensures Linked() && node.key == (if ok then Some(key) else None) && node.value == old(node.value)
      ensures ok <==> !needsCopy || granted
      ensures forall k :: 0 <= k < |nodes| && k != i ==> Entries()[k] == old(Entries())[k]
    {
      if needsCopy {
        node.key := if granted then Some(key) else None;
        if node.key == None {
          return false;
        }
      } else {
        node.key := Some(key);
      }
      ok := true;
    }

    method SetNodeValue(node: Node<V>, ghost i: nat, value: V)
      requires Linked() && i < |nodes| && node == nodes[i]
      modifies node
      ensures Linked() && node.key == old(node.key)
      ensures Entries() == old(Entries())[i := Entry(old(Entries()[i].key), value)]
    {
      node.value := value;
    }

    /** Unlinks the i-th node; the entries lose the one at its place. */
    method RemoveEntry(nodeToRemove: Node?<V>, ghost i: nat)
      requires Linked() && Named() && nodeToRemove == At(nodes, i)
      modifies this, nodes
      ensures Linked() && Named() && SamePlaces(old(Entries()), Entries(), i)
    {
      RemoveNode(nodeToRemove, i);
    }

    /** Unlinks the i-th node; nothing if it is NULL. */
    method RemoveNode(nodeToRemove: Node?<V>, ghost i: nat)
      requires Linked() && nodeToRemove == At(nodes, i)
      modifies this, nodes
      ensures Linked()
      ensures nodes == if i < |old(nodes)| then old(nodes)[..i] + old(nodes)[i + 1..] else old(nodes)
      ensures forall k :: 0 <= k < |nodes| ==> nodes[k] == old(nodes)[if k < i then k else k + 1]
      ensures forall node <- old(nodes) :: node.key == old(node.key) && node.value == old(node.value)
    {
      if nodeToRemove == null {
        return;
      }
      ghost var kept := nodes[..i] + nodes[i + 1..];
      assert forall j :: 0 <= j < |kept| ==> kept[j] == nodes[if j < i then j else j + 1];
      if nodeToRemove == firstNode {
        firstNode := nodeToRemove.next;
      } else {
        SkipNode(nodeToRemove, i);
      }
      nodes := kept;
    }

    /** Whether the links are those of the list, but skip the i-th node. */
    ghost predicate Skips(i: nat)
      requires 0 < i < |nodes|
      reads this, nodes
    {
      forall j {:trigger nodes[j].next} ::
        0 <= j < |nodes| ==> nodes[j].next == At(nodes, if j == i - 1 then i + 1 else j + 1)
    }

    /** The loop of removeNode(): the predecessor links past the node. */
    method SkipNode(nodeToRemove: Node<V>, ghost i: nat)
      requires Linked() && 0 < i < |nodes| && nodeToRemove == nodes[i]
      modifies nodes
      ensures Skips(i)
      ensures forall node <- nodes :: node.key == old(node.key) && node.value == old(node.value)
    {
      var node := firstNode;
      ghost var k: nat := 0;
      while node != null
        invariant k <= |nodes| && k != i && node == At(nodes, k)
        invariant if k < i then Linked() else Skips(i)
        invariant forall node <- nodes :: node.key == old(node.key) && node.value == old(node.value)
        decreases |nodes| - k
      {
        assert nodes[k].next == At(nodes, k + 1);
        assert node.next == nodeToRemove <==> k == i - 1;
        if node.next == nodeToRemove {
          node.next := nodeToRemove.next;
          k := k + 1;
        }
        node := node.next;
        k := k + 1;
      }
    }

    method Remove(key: string)
      requires Valid()
      modifies this, nodes
      ensures Valid() && Entries() == Apply(old(Entries()), Operation.Remove(key))
    {
      var node := GetNodeAt(key);
      RemoveNamed(node, key);
    }

    /** removeNode() seen through the entries. */
    method RemoveNamed(node: Node?<V>, ghost key: string)
      requires Valid() && node == At(nodes, IndexOf(Entries(), key))
      modifies this, nodes
      ensures Linked() && Named() && UniqueKeys(Entries()) && Entries() == Without(old(Entries()), key)
    {
      ghost var before := Entries();
      RemoveEntry(node, IndexOf(before, key));
      OthersStay(before, Entries(), key);
    }
  }

  /** A set that fails and still changes the object: the first key is to be copied, and there
      is room for its node only. */
  method KeylessNode(value: int) returns (o: JsonObject<int>, ok: bool)
    ensures !ok && |o.nodes| == 1 && !o.Named() && o.nodes[0].key == None
  {
    o := new JsonObject(true, value);
    ok := o.Set("a", value, true, true, false);
  }

  /** Entries that are those before without one, place by place. */
  lemma OthersStay<V>(before: seq<Entry<V>>, after: seq<Entry<V>>, key: string)
    requires UniqueKeys(before) && SamePlaces(before, after, IndexOf(before, key))
    ensures after == Without(before, key) && UniqueKeys(after)
  {
    assert after == Without(before, key) by {
      SamePlacesMeaning(before, after, IndexOf(before, key));
    }
    WithoutUnique(before, key);
  }

  ghost predicate SamePlaces<V>(before: seq<Entry<V>>, after: seq<Entry<V>>, i: nat) {
    && |after| == (if i < |before| then |before| - 1 else |before|)
    && forall k :: 0 <= k < |after| ==> after[k] == before[if k < i then k else k + 1]
  }

  lemma SamePlacesMeaning<V>(before: seq<Entry<V>>, after: seq<Entry<V>>, i: nat)
    requires SamePlaces(before, after, i)
    ensures after == if i < |before| then before[..i] + before[i + 1..] else before
  {}
}
