/** The address book as a sorted doubly linked list on the heap, with its record files. */
module AddressBookObject {
  import opened AddressBook
  import opened DoublyLinked
  import opened Names

  type PersonNode = Node<Person>

  lemma DataOfWith(nodes: seq<PersonNode>, i: nat, item: PersonNode)
    requires i <= |nodes|
    ensures DataOf(With(nodes, i, item)) == Spliced(DataOf(nodes), i, item.data)
  {
  }

  class Book {
    var front: Node?<Person>
    ghost var nodes: seq<PersonNode>

    ghost predicate Valid()
      reads this, nodes
    {
      front == NodeAt(nodes, 0) && Linked(nodes)
    }

    /** The persons in list order. */
    ghost function Persons(): seq<Person>
      reads this
    {
      DataOf(nodes)
    }

    constructor ()
      ensures Valid() && Persons() == []
    {
      front, nodes := null, [];
    }

    /**
     list_insert_front.  On an empty list the links of `item` are not written, so the result is a
     list exactly when there was one before or those links were null already.
     */
    method ListInsertFront(item: PersonNode)
      requires Valid() && item !in nodes
      modifies this, nodes, item
      ensures Valid() <==> old(nodes) != [] || (old(item.prev) == null && old(item.next) == null)
      ensures nodes == With(old(nodes), Slot(old(Persons()), Key(item.data)), item)
      ensures Persons() == Inserted(old(Persons()), item.data)
    {
      ghost var before, slot := nodes, Slot(Persons(), Key(item.data));
      if front == null {
        InsertFirst(item);
      } else {
        var node: PersonNode, last: bool;
        ghost var i: nat;
        node, last, i := Seek(item.data);
        if last {
          Append(item, node);
        } else {
          InsertBefore(item, node, i);
        }
      }
      DataOfWith(before, slot, item);
    }

    /** Lines 47-49. */
    method InsertFirst(item: PersonNode)
      requires Valid() && nodes == []
      modifies this
      ensures nodes == With(old(nodes), 0, item)
      ensures Valid() <==> item.prev == null && item.next == null
    {
      front := item;
      nodes := [item];
      assert nodes[0].next == item.next && nodes[0].prev == item.prev;
    }

    /** The scan at lines 52-78: the first node not smaller, or the last node when there is none. */
    method Seek(person: Person) returns (node: PersonNode, last: bool, ghost i: nat)
      requires Valid() && nodes != []
      ensures i < |nodes| && node == nodes[i]
      ensures Slot(Persons(), Key(person)) == if last then |nodes| else i
      ensures last ==> i == |nodes| - 1
    {
      ghost var persons, name := Persons(), Key(person);
      node, i := front, 0;
      while true
        invariant 0 <= i < |nodes| && node == nodes[i]
        invariant forall k :: 0 <= k < i ==> Compare(name, Key(persons[k])) > 0
        decreases |nodes| - i
      {
        assert persons[i] == node.data && node.next == NodeAt(nodes, i + 1);
        var order := CompareName(person.name, node.data.name);
        CompareSigns(name, Key(node.data));
        if order == -1 || order == 0 {
          SlotUnique(persons, name, i);
          return node, false, i;
        }
        if node.next == null {
          SlotUnique(persons, name, |nodes|);
          return node, true, i;
        }
        node, i := node.next, i + 1;
      }
    }

    /** Lines 59-65. */
    method InsertBefore(item: PersonNode, node: PersonNode, ghost i: nat)
      requires Valid() && item !in nodes && i < |nodes| && nodes[i] == node
      modifies this, nodes, item
      ensures Valid() && nodes == With(old(nodes), i, item)
    {
      var first := HookBefore(item, node, nodes, i);
      if first {
        front := item;
      }
      nodes := With(nodes, i, item);
    }

    /** Lines 71-73. */
    method Append(item: PersonNode, node: PersonNode)
      requires Valid() && item !in nodes && nodes != [] && nodes[|nodes| - 1] == node
      modifies this, nodes, item
      ensures Valid() && nodes == With(old(nodes), |old(nodes)|, item)
    {
      node.next := item;
      item.prev := node;
      item.next := null;
      nodes := With(nodes, |nodes|, item);
    }

    /** list_delete, for a node of the list. */
    method ListDelete(item: PersonNode, ghost i: nat)
      requires Valid() && i < |nodes| && nodes[i] == item
      modifies this, nodes
      ensures Valid() && nodes == Without(old(nodes), i)
      ensures Persons() == Removed(old(Persons()), i)
    {
      Unhook(item, nodes, i);
      if item == front {
        front := item.next;
      }
      item.prev, item.next := null, null;
      nodes := Without(nodes, i);
    }

    /** person_insert: the node is fresh, with null links. */
    method PersonInsert(person: Person) returns (ret: int)
      requires Valid()
      modifies this, nodes
      ensures Valid() && ret == 0 && Persons() == Inserted(old(Persons()), person)
      ensures forall k :: 0 <= k < |nodes| ==> nodes[k] in old(nodes) || fresh(nodes[k])
    {
      var node := new Node<Person>(person);
      ListInsertFront(node);
      return 0;
    }

    /** The scan shared by search and delete: the first node of that name, or null. */
    method FindNode(name: Name) returns (node: Node?<Person>, ghost i: nat)
      requires Valid()
      ensures i == Find(Persons(), name) && node == NodeAt(nodes, i)
    {
      node, i := front, 0;
      while node != null
        invariant i <= |nodes| && node == NodeAt(nodes, i)
        invariant forall k :: 0 <= k < i ==> Key(nodes[k].data) != name
        decreases |nodes| - i
      {
        if CString(node.data.name) == name {
          return;
        }
        node := node.next;
        i := i + 1;
      }
    }

    /** person_delete: 0 and the first match removed, or -1 and nothing changed. */
    method PersonDelete(name: Name) returns (ret: int)
      requires Valid()
      modifies this, nodes
      ensures Valid() && Persons() == Deleted(old(Persons()), name)
      ensures ret == if exists p :: p in old(Persons()) && Key(p) == name then 0 else -1
      ensures nodes == old(nodes) || exists i: nat :: i < |old(nodes)| && nodes == Without(old(nodes), i)
    {
      var node: Node?<Person>;
      ghost var i: nat;
      node, i := FindNode(name);
      if node != null {
        assert Persons()[i] in Persons();
        ListDelete(node, i);
        return 0;
      }
      return -1;
    }

    /** person_search: the first person of that name. */
    method PersonSearch(name: Name) returns (found: bool, person: Person)
      requires Valid()
      ensures found <==> exists p :: p in Persons() && Key(p) == name
      ensures found ==> person == Persons()[Find(Persons(), name)]
    {
      var node: Node?<Person>;
      ghost var i: nat;
      node, i := FindNode(name);
      if node != null {
        assert Persons()[i] in Persons();
        return true, node.data;
      }
      return false, *;
    }

    /** save_entry; `opens` is whether `fopen` succeeds.  An empty book writes no file at all. */
    method SaveEntry(oldFile: seq<schar>, opens: bool) returns (ret: int, file: seq<schar>)
      requires Valid()
      ensures Persons() == [] || !opens ==> ret == -1 && file == oldFile
      ensures Persons() != [] && opens ==> ret == 0 && file == FileOf(Persons())
    {
      if front == null {
        return -1, oldFile;
      }
      if !opens {
        return -1, oldFile;
      }
      file := [];
      var node := front;
      ghost var persons, i := Persons(), 0;
      while node != null
        invariant 0 <= i <= |nodes| && node == NodeAt(nodes, i)
        invariant file + FileOf(persons[i..]) == FileOf(persons)
        decreases |nodes| - i
      {
        FileOfTail(file, persons, i);
        file := file + (node.data.name + node.data.phone);
        node := node.next;
        i := i + 1;
      }
      assert persons[i..] == [];
      return 0, file;
    }

    /** load_entry: one read ahead, the end of the file checked before each insertion. */
    method LoadEntry(file: seq<schar>, opens: bool) returns (ret: int)
      requires Valid() && Readable(file)
      modifies this, nodes
      ensures Valid() && ret == if opens then 0 else -1
      ensures Persons() == if opens then Loaded(old(Persons()), RecordsOf(file)) else old(Persons())
    {
      if !opens {
        return -1;
      }
      ghost var all := Loaded(Persons(), RecordsOf(file));
      var offset := 0;
      var eof := |file| - offset < RECORD;
      while !eof
        invariant Valid() && 0 <= offset <= |file| && Readable(file[offset..])
        invariant eof <==> |file| - offset < RECORD
        invariant forall k :: 0 <= k < |nodes| ==> nodes[k] in old(nodes) || fresh(nodes[k])
        invariant Loaded(Persons(), RecordsOf(file[offset..])) == all
        decreases |file| - offset
      {
        var person := ReadRecord(file, offset);
        LoadedStep(Persons(), person, RecordsOf(file[offset + RECORD..]));
        var inserted := PersonInsert(person);
        offset := offset + RECORD;
        eof := |file| - offset < RECORD;
      }
      return 0;
    }
  }

  /** Appending the record of the next person leaves the later ones to write. */
  lemma FileOfTail(file: seq<schar>, persons: seq<Person>, i: nat)
    requires i < |persons|
    ensures file + FileOf(persons[i..]) == (file + (persons[i].name + persons[i].phone)) + FileOf(persons[i + 1..])
  {
    assert persons[i..][1..] == persons[i + 1..];
  }

  lemma LoadedStep(s: seq<Person>, p: Person, rest: seq<Person>)
    ensures Loaded(s, [p] + rest) == Loaded(Inserted(s, p), rest)
  {
    assert ([p] + rest)[1..] == rest;
  }

  /** fread of one complete record. */
  method ReadRecord(file: seq<schar>, offset: nat) returns (person: Person)
    requires offset + RECORD <= |file| && Readable(file[offset..])
    ensures Readable(file[offset + RECORD..])
    ensures RecordsOf(file[offset..]) == [person] + RecordsOf(file[offset + RECORD..])
  {
    var rest := file[offset..];
    person := Record(rest[..NAME_LENGTH], rest[NAME_LENGTH..RECORD]);
    assert rest[RECORD..] == file[offset + RECORD..];
  }

  /**
   Saving a sorted book and loading the file into an empty one gives the book with each run of
   equal names reversed; but an empty book, or one whose file cannot be opened, writes nothing, and
   the load then reads the old file.
   */
  method SaveThenLoad(book: Book, other: Book, oldFile: seq<schar>, saves: bool, loads: bool)
    requires book.Valid() && other.Valid() && other.Persons() == [] && Sorted(book.Persons())
    requires Readable(oldFile)
    modifies other, other.nodes
    ensures other.Valid()
    ensures var before, after := old(book.Persons()), other.Persons();
      && (before != [] && saves && loads ==>
            Sorted(after) && forall name: Name :: Named(after, name) == Reversed(Named(before, name)))
      && (before != [] && saves && loads && DistinctNames(before) ==> after == before)
      && ((before == [] || !saves) && loads ==> after == Loaded([], RecordsOf(oldFile)))
      && (!loads ==> after == [])
  {
    ghost var persons := book.Persons();
    var saved, file := book.SaveEntry(oldFile, saves);
    if saved == 0 {
      assert file + [] == file;
      ReadBack(persons, []);
    }
    var loaded := other.LoadEntry(file, loads);
    LoadReversesRuns(persons);
    if DistinctNames(persons) {
      LoadDistinct(persons);
    }
  }
}
