/** The address book as a sequence of persons: sorted insertion, deletion, search, and record files. */
module AddressBook {
  import opened Names

  const NAME_LENGTH := 16
  const PHONE_LENGTH := 11
  const RECORD := NAME_LENGTH + PHONE_LENGTH

  /** The two character arrays of a person, including whatever follows the terminator. */
  datatype Record = Record(name: seq<schar>, phone: seq<schar>)

  /** A person whose name is terminated, as every string function applied to it needs. */
  type Person = p: Record |
    |p.name| == NAME_LENGTH && |p.phone| == PHONE_LENGTH && 0 in p.name
    witness Record([0, 0, 0, 0, 0, 0, 0, 0, 0, 0, 0, 0, 0, 0, 0, 0], [0, 0, 0, 0, 0, 0, 0, 0, 0, 0, 0])

  function Key(p: Person): Name {
    CString(p.name)
  }

  predicate Sorted(s: seq<Person>) {
    forall i, j :: 0 <= i < j < |s| ==> Compare(Key(s[i]), Key(s[j])) <= 0
  }

  // ------------------------------------------------------------------ insertion

  /** The first index whose name is not smaller than `name`. */
  function Slot(s: seq<Person>, name: Name): (k: nat)
    ensures k <= |s|
  {
    if s == [] || Compare(name, Key(s[0])) <= 0 then 0 else 1 + Slot(s[1..], name)
  }

  function Spliced(s: seq<Person>, k: nat, p: Person): (r: seq<Person>)
    requires k <= |s|
    ensures |r| == |s| + 1
    ensures forall i :: 0 <= i < |r| ==> r[i] == if i < k then s[i] else if i == k then p else s[i - 1]
  {
    s[..k] + [p] + s[k..]
  }

  /** Insert before the first element whose name is not smaller. */
  function Inserted(s: seq<Person>, p: Person): seq<Person> {
    Spliced(s, Slot(s, Key(p)), p)
  }

  lemma SplicedMultiset(s: seq<Person>, k: nat, p: Person)
    requires k <= |s|
    ensures multiset(Spliced(s, k, p)) == multiset(s) + multiset{p}
  {
    assert s == s[..k] + s[k..];
  }

  lemma {:induction false} SlotExact(s: seq<Person>, name: Name)
    ensures forall i :: 0 <= i < Slot(s, name) ==> Compare(name, Key(s[i])) > 0
    ensures Slot(s, name) < |s| ==> Compare(name, Key(s[Slot(s, name)])) <= 0
  {
    if s != [] && Compare(name, Key(s[0])) > 0 {
      SlotExact(s[1..], name);
      forall i | 0 <= i < Slot(s, name)
        ensures Compare(name, Key(s[i])) > 0
      {
        assert i > 0 ==> s[i] == s[1..][i - 1];
      }
    }
  }

  lemma {:induction false} SlotUnique(s: seq<Person>, name: Name, k: nat)
    requires k <= |s| && forall i :: 0 <= i < k ==> Compare(name, Key(s[i])) > 0
    requires k < |s| ==> Compare(name, Key(s[k])) <= 0
    ensures Slot(s, name) == k
  {
    if k > 0 {
      SlotUnique(s[1..], name, k - 1);
    }
  }

  /** Insertion keeps the book sorted and adds exactly the new person. */
  lemma InsertKeepsSorted(s: seq<Person>, p: Person)
    requires Sorted(s)
    ensures Sorted(Inserted(s, p))
    ensures multiset(Inserted(s, p)) == multiset(s) + multiset{p}
  {
    var k := Slot(s, Key(p));
    SplicedMultiset(s, k, p);
    SlotExact(s, Key(p));
    SplicedSorted(s, k, p);
  }

  lemma SplicedSorted(s: seq<Person>, k: nat, p: Person)
    requires Sorted(s) && k <= |s| && forall i :: 0 <= i < k ==> Compare(Key(p), Key(s[i])) > 0
    requires k < |s| ==> Compare(Key(p), Key(s[k])) <= 0
    ensures Sorted(Spliced(s, k, p))
  {
    var r := Spliced(s, k, p);
    forall i, j | 0 <= i < j < |r|
      ensures Compare(Key(r[i]), Key(r[j])) <= 0
    {
      if j == k {
        CompareSigns(Key(p), Key(s[i]));
      } else if i == k && j > k + 1 {
        CompareTransitive(Key(p), Key(s[k]), Key(s[j - 1]));
      }
    }
  }

  // ------------------------------------------------------------------ search and deletion

  /** The index of the first person of that name, or the length. */
  function Find(s: seq<Person>, name: Name): (k: nat)
    ensures k <= |s|
    ensures forall i :: 0 <= i < k ==> Key(s[i]) != name
    ensures k < |s| ==> Key(s[k]) == name
  {
    if s == [] || Key(s[0]) == name then 0
    else
      var k := Find(s[1..], name);
      assert forall i :: 0 < i < k + 1 ==> s[i] == s[1..][i - 1];
      1 + k
  }

  function Removed(s: seq<Person>, k: nat): (r: seq<Person>)
    requires k < |s|
    ensures |r| == |s| - 1
    ensures forall i :: 0 <= i < |r| ==> r[i] == if i < k then s[i] else s[i + 1]
  {
    s[..k] + s[k + 1..]
  }

  /** Remove the first person of that name, if there is one. */
  function Deleted(s: seq<Person>, name: Name): seq<Person> {
    var k := Find(s, name);
    if k < |s| then Removed(s, k) else s
  }

  lemma RemovedMultiset(s: seq<Person>, k: nat)
    requires k < |s|
    ensures multiset(s) == multiset(Removed(s, k)) + multiset{s[k]}
  {
    assert s == s[..k] + [s[k]] + s[k + 1..];
  }

  /** Search right after an insertion finds the new record, even among duplicates. */
  lemma SearchFindsInserted(s: seq<Person>, p: Person)
    ensures Find(Inserted(s, p), Key(p)) == Slot(s, Key(p))
    ensures Inserted(s, p)[Find(Inserted(s, p), Key(p))] == p
  {
    var k, r := Slot(s, Key(p)), Inserted(s, p);
    SlotExact(s, Key(p));
    assert r[k] == p;
    forall i | 0 <= i < k
      ensures Key(r[i]) != Key(p)
    {
      CompareSigns(Key(p), Key(s[i]));
    }
    var f := Find(r, Key(p));
    assert f <= k && f >= k;
  }

  /** Deletion undoes insertion exactly. */
  lemma DeleteUndoesInsert(s: seq<Person>, p: Person)
    ensures Deleted(Inserted(s, p), Key(p)) == s
  {
    SearchFindsInserted(s, p);
  }

  lemma RemovedSorted(s: seq<Person>, k: nat)
    requires Sorted(s) && k < |s|
    ensures Sorted(Removed(s, k))
  {
  }

  lemma DeleteKeepsSorted(s: seq<Person>, name: Name)
    requires Sorted(s)
    ensures Sorted(Deleted(s, name))
    ensures (forall i :: 0 <= i < |s| ==> Key(s[i]) != name) ==> Deleted(s, name) == s
    ensures Find(s, name) < |s| ==> multiset(s) == multiset(Deleted(s, name)) + multiset{s[Find(s, name)]}
    ensures forall k: nat :: k < |s| && Key(s[k]) == name && (forall i :: 0 <= i < k ==> Key(s[i]) != name) ==>
      Deleted(s, name) == s[..k] + s[k + 1..]
  {
    var k := Find(s, name);
    if k < |s| {
      RemovedMultiset(s, k);
      RemovedSorted(s, k);
    }
  }

  // ------------------------------------------------------------------ the records of one name

  /** The persons of one name, in book order. */
  function Named(s: seq<Person>, name: Name): seq<Person> {
    if s == [] then []
    else (if Key(s[0]) == name then [s[0]] else []) + Named(s[1..], name)
  }

  lemma {:induction false} NamedConcat(s: seq<Person>, t: seq<Person>, name: Name)
    ensures Named(s + t, name) == Named(s, name) + Named(t, name)
  {
    if s == [] {
      assert s + t == t;
    } else {
      var head: seq<Person> := if Key(s[0]) == name then [s[0]] else [];
      assert (s + t)[1..] == s[1..] + t;
      NamedConcat(s[1..], t, name);
      assert head + (Named(s[1..], name) + Named(t, name)) == (head + Named(s[1..], name)) + Named(t, name);
    }
  }

  lemma {:induction false} NamedNone(s: seq<Person>, name: Name)
    requires forall i :: 0 <= i < |s| ==> Key(s[i]) != name
    ensures Named(s, name) == []
  {
    if s != [] {
      NamedNone(s[1..], name);
    }
  }

  lemma NamedOne(p: Person, name: Name)
    ensures Named([p], name) == if Key(p) == name then [p] else []
  {
    assert [p][1..] == [];
  }

  lemma SplicedNamed(s: seq<Person>, k: nat, p: Person, name: Name)
    requires k <= |s|
    ensures Named(s, name) == Named(s[..k], name) + Named(s[k..], name)
    ensures Named(Spliced(s, k, p), name)
         == Named(s[..k], name) + (if Key(p) == name then [p] else []) + Named(s[k..], name)
  {
    assert s == s[..k] + s[k..];
    NamedConcat(s[..k], s[k..], name);
    NamedConcat(s[..k] + [p], s[k..], name);
    NamedConcat(s[..k], [p], name);
    NamedOne(p, name);
  }

  /** A new record goes before the older records of its name and moves no other record. */
  lemma InsertedNamed(s: seq<Person>, p: Person, name: Name)
    ensures Named(Inserted(s, p), name) == (if Key(p) == name then [p] else []) + Named(s, name)
  {
    var k := Slot(s, Key(p));
    var one: seq<Person> := if Key(p) == name then [p] else [];
    SplicedNamed(s, k, p, name);
    if Key(p) == name {
      NothingBeforeSlot(s, name);
    }
    Swapped(Named(s[..k], name), one, Named(s[k..], name));
  }

  lemma Swapped(a: seq<Person>, b: seq<Person>, c: seq<Person>)
    requires a == [] || b == []
    ensures a + b + c == b + (a + c)
  {
  }

  lemma NothingBeforeSlot(s: seq<Person>, name: Name)
    ensures Named(s[..Slot(s, name)], name) == []
  {
    var k := Slot(s, name);
    SlotExact(s, name);
    forall i | 0 <= i < k
      ensures Key(s[..k][i]) != name
    {
      CompareSigns(name, Key(s[i]));
    }
    NamedNone(s[..k], name);
  }

  lemma {:induction false} NamedIn(s: seq<Person>, i: nat)
    requires i < |s|
    ensures Named(s, Key(s[i])) != []
  {
    if i > 0 {
      NamedIn(s[1..], i - 1);
    }
  }

  lemma {:induction false} NamedSome(s: seq<Person>, name: Name) returns (i: nat)
    requires Named(s, name) != []
    ensures i < |s| && Key(s[i]) == name
  {
    if Key(s[0]) == name {
      i := 0;
    } else {
      i := NamedSome(s[1..], name);
      i := i + 1;
    }
  }

  /** In a sorted book the first name is the smallest one that occurs. */
  lemma FirstIsSmallest(s: seq<Person>, t: seq<Person>)
    requires Sorted(s) && Sorted(t) && s != [] && t != []
    requires Named(t, Key(s[0])) == Named(s, Key(s[0]))
    ensures Compare(Key(t[0]), Key(s[0])) <= 0
  {
    NamedIn(s, 0);
    var i := NamedSome(t, Key(s[0]));
    CompareSigns(Key(t[0]), Key(t[0]));
    assert i > 0 ==> Compare(Key(t[0]), Key(t[i])) <= 0;
  }

  /** A sorted book is determined by the records of each name. */
  lemma {:induction false} SortedIsDetermined(s: seq<Person>, t: seq<Person>)
    requires Sorted(s) && Sorted(t)
    requires forall name: Name :: Named(s, name) == Named(t, name)
    ensures s == t
  {
    if s == [] {
      if t != [] {
        NamedIn(t, 0);
      }
    } else {
      NamedIn(s, 0);
      assert Named(s, Key(s[0])) == Named(t, Key(s[0]));
      assert t != [];
      assert Named(s, Key(t[0])) == Named(t, Key(t[0]));
      FirstIsSmallest(s, t);
      FirstIsSmallest(t, s);
      CompareSigns(Key(s[0]), Key(t[0]));
      assert Named(s, Key(s[0]))[0] == s[0] && Named(t, Key(s[0]))[0] == t[0];
      forall name: Name
        ensures Named(s[1..], name) == Named(t[1..], name)
      {
        assert Named(s, name) == Named(t, name);
        if Key(s[0]) == name {
          assert Named(s[1..], name) == Named(s, name)[1..];
          assert Named(t[1..], name) == Named(t, name)[1..];
        } else {
          assert Named(s[1..], name) == Named(s, name);
          assert Named(t[1..], name) == Named(t, name);
        }
      }
      SortedIsDetermined(s[1..], t[1..]);
    }
  }

  // ------------------------------------------------------------------ loading records

  /** The book after inserting the records of a file one after the other. */
  function Loaded(s: seq<Person>, records: seq<Person>): seq<Person>
    decreases |records|
  {
    if records == [] then s else Loaded(Inserted(s, records[0]), records[1..])
  }

  function Reversed(s: seq<Person>): seq<Person> {
    if s == [] then [] else Reversed(s[1..]) + [s[0]]
  }

  /** Loading any records into any sorted book gives a sorted permutation of the union. */
  lemma {:induction false} LoadSortsUnion(s: seq<Person>, records: seq<Person>)
    requires Sorted(s)
    ensures Sorted(Loaded(s, records))
    ensures multiset(Loaded(s, records)) == multiset(s) + multiset(records)
    decreases |records|
  {
    if records != [] {
      InsertKeepsSorted(s, records[0]);
      LoadSortsUnion(Inserted(s, records[0]), records[1..]);
      assert records == [records[0]] + records[1..];
    }
  }

  /** Per name, the file's records arrive in reverse order before the ones already there. */
  lemma {:induction false} LoadNamed(s: seq<Person>, records: seq<Person>, name: Name)
    ensures Named(Loaded(s, records), name) == Reversed(Named(records, name)) + Named(s, name)
    decreases |records|
  {
    if records != [] {
      var one: seq<Person> := if Key(records[0]) == name then [records[0]] else [];
      var rest, tail := Named(records[1..], name), Named(s, name);
      InsertedNamed(s, records[0], name);
      LoadNamed(Inserted(s, records[0]), records[1..], name);
      ReversedHead(one, rest, tail);
    }
  }

  lemma ReversedHead(one: seq<Person>, rest: seq<Person>, tail: seq<Person>)
    requires |one| <= 1
    ensures Reversed(rest) + (one + tail) == Reversed(one + rest) + tail
  {
    assert Reversed(rest) + (one + tail) == (Reversed(rest) + one) + tail;
    if one == [] {
      assert one + rest == rest;
    } else {
      assert (one + rest)[1..] == rest;
    }
  }

  lemma {:induction false} ReversedSnoc(s: seq<Person>, p: Person)
    ensures Reversed(s + [p]) == [p] + Reversed(s)
  {
    if s != [] {
      assert (s + [p])[1..] == s[1..] + [p];
      ReversedSnoc(s[1..], p);
    }
  }

  lemma {:induction false} ReversedTwice(s: seq<Person>)
    ensures Reversed(Reversed(s)) == s
  {
    if s != [] {
      ReversedTwice(s[1..]);
      ReversedSnoc(Reversed(s[1..]), s[0]);
    }
  }

  /** No two persons share a name. */
  predicate DistinctNames(s: seq<Person>) {
    forall i, j :: 0 <= i < j < |s| ==> Key(s[i]) != Key(s[j])
  }

  lemma {:induction false} NamedAtMostOne(s: seq<Person>, name: Name)
    requires DistinctNames(s)
    ensures |Named(s, name)| <= 1
  {
    if s != [] {
      NamedAtMostOne(s[1..], name);
      if Key(s[0]) == name {
        NamedNone(s[1..], name);
      }
    }
  }

  /** Loading a saved book into an empty one: sorted, with each run of equal names reversed. */
  lemma LoadReversesRuns(s: seq<Person>)
    requires Sorted(s)
    ensures Sorted(Loaded([], s)) && multiset(Loaded([], s)) == multiset(s)
    ensures forall name: Name :: Named(Loaded([], s), name) == Reversed(Named(s, name))
  {
    LoadSortsUnion([], s);
    forall name: Name
      ensures Named(Loaded([], s), name) == Reversed(Named(s, name))
    {
      LoadNamed([], s, name);
    }
  }

  /** So a book of distinct names comes back unchanged ... */
  lemma LoadDistinct(s: seq<Person>)
    requires Sorted(s) && DistinctNames(s)
    ensures Loaded([], s) == s
  {
    LoadReversesRuns(s);
    forall name: Name
      ensures Named(Loaded([], s), name) == Named(s, name)
    {
      NamedAtMostOne(s, name);
      var run := Named(s, name);
      assert Named(Loaded([], s), name) == Reversed(run);
      if run != [] {
        assert run == [run[0]] && run[1..] == [];
      }
    }
    SortedIsDetermined(Loaded([], s), s);
  }

  /** ... and any book comes back unchanged after saving and loading twice. */
  lemma LoadTwice(s: seq<Person>)
    requires Sorted(s)
    ensures Loaded([], Loaded([], s)) == s
  {
    var once := Loaded([], s);
    LoadReversesRuns(s);
    LoadReversesRuns(once);
    forall name: Name
      ensures Named(Loaded([], once), name) == Named(s, name)
    {
      assert Named(once, name) == Reversed(Named(s, name));
      assert Named(Loaded([], once), name) == Reversed(Named(once, name));
      ReversedTwice(Named(s, name));
    }
    SortedIsDetermined(Loaded([], once), s);
  }

  // ------------------------------------------------------------------ record files

  function Bytes(p: Person): seq<schar> {
    p.name + p.phone
  }

  /** The file written for a list of persons. */
  function FileOf(s: seq<Person>): seq<schar> {
    if s == [] then [] else Bytes(s[0]) + FileOf(s[1..])
  }

  /** Every complete record of the file holds a terminated name. */
  predicate Readable(file: seq<schar>) {
    |file| < RECORD || (0 in file[..NAME_LENGTH] && Readable(file[RECORD..]))
  }

  /** The complete records of a file; an incomplete last one is ignored. */
  function RecordsOf(file: seq<schar>): seq<Person>
    requires Readable(file)
  {
    if |file| < RECORD then []
    else [Record(file[..NAME_LENGTH], file[NAME_LENGTH..RECORD])] + RecordsOf(file[RECORD..])
  }

  /** Reading a written file gives back the persons, whatever incomplete record follows. */
  lemma {:induction false} ReadBack(s: seq<Person>, tail: seq<schar>)
    requires |tail| < RECORD
    ensures Readable(FileOf(s) + tail) && RecordsOf(FileOf(s) + tail) == s
  {
    if s == [] {
      assert FileOf(s) + tail == tail;
    } else {
      var file := FileOf(s) + tail;
      ReadBack(s[1..], tail);
      assert file == s[0].name + s[0].phone + (FileOf(s[1..]) + tail);
      assert file[..NAME_LENGTH] == s[0].name && file[NAME_LENGTH..RECORD] == s[0].phone;
      assert file[RECORD..] == FileOf(s[1..]) + tail;
    }
  }

  /** Where record `i` lies in a written file: 27 octets each, 16 for the name and 11 for the phone. */
  lemma {:induction false} RecordLies(s: seq<Person>, i: nat, at: nat)
    requires i < |s| && at == 27 * i
    ensures |FileOf(s)| == 27 * |s|
    ensures at + 27 <= |FileOf(s)| && FileOf(s)[at..at + 16] == s[i].name
    ensures FileOf(s)[at + 16..at + 27] == s[i].phone
  {
    var rest := FileOf(s[1..]);
    FileSize(s);
    if i == 0 {
      FirstRecord(s[0], rest);
    } else {
      RecordLies(s[1..], i - 1, at - 27);
      LaterRecord(Bytes(s[0]), rest, at - 27);
    }
  }

  lemma FirstRecord(p: Person, rest: seq<schar>)
    ensures (Bytes(p) + rest)[0..16] == p.name && (Bytes(p) + rest)[16..27] == p.phone
  {
  }

  lemma LaterRecord(first: seq<schar>, rest: seq<schar>, at: nat)
    requires |first| == 27 && at + 27 <= |rest|
    ensures (first + rest)[at + 27..at + 43] == rest[at..at + 16]
    ensures (first + rest)[at + 43..at + 54] == rest[at + 16..at + 27]
  {
  }

  lemma {:induction false} FileSize(s: seq<Person>)
    ensures |FileOf(s)| == 27 * |s|
  {
    if s != [] {
      FileSize(s[1..]);
    }
  }
}
