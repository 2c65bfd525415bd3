/** LinkListLib.cpp: the intrusive circular list with a sentinel, a counter, and predicate search. */
module LinkList {
  import opened ListMemory

  /** LIST_ENTRY inside an ILinkListElement; the links of a new element are NULL. */
  class ListEntry {
    var Flink: ListEntry?
    var Blink: ListEntry?

    constructor ()
      ensures Flink == null && Blink == null
    {
      Flink, Blink := null, null;
    }
  }

  /** A callback: it sees an element and, in the extended form, the number of elements. */
  type Callback = (ListEntry, DWORD) -> bool

  class CLinkListLib {
    const m_ListHead: ListEntry
    var m_NumberOfElements: DWORD

    ghost var Elements: seq<ListEntry>
    // What the links hold, of the sentinel and of every entry that ever was in the list.
    ghost var Mem: Links<ListEntry>

    ghost function Known(): set<ListEntry>
      reads this
    {
      Entries(Mem)
    }

    ghost predicate Mirrored()
      reads this, Known()
    {
      && (forall e {:trigger e.Flink} | e in Mem.f :: e.Flink == Mem.f[e])
      && (forall e {:trigger e.Blink} | e in Mem.b :: e.Blink == Mem.b[e])
    }

    ghost predicate Valid()
      reads this, Known()
    {
      && Mirrored()
      && Sound(Mem, m_ListHead, Elements)
      && m_NumberOfElements == Wrap(|Elements|)
    }

    /** What a walk over the links and the counter show of a valid list. */
    lemma Shows()
      requires Valid()
      ensures |Elements| < 0x1_0000_0000 ==> m_NumberOfElements == |Elements|
      ensures forall n | 1 <= n <= |Elements| :: Walk(Mem.f, m_ListHead, n) == Elements[n - 1]
      ensures forall n | 1 <= n <= |Elements| :: Walk(Mem.b, m_ListHead, n) == Elements[|Elements| - n]
      ensures Walk(Mem.f, m_ListHead, |Elements| + 1) == m_ListHead == Walk(Mem.b, m_ListHead, |Elements| + 1)
      ensures forall e | e in Mem.f :: e.Flink == Mem.f[e]
      ensures forall e | e in Mem.b :: e.Blink == Mem.b[e]
    {
      var q := WrapExact(|Elements|);
      WalkRing(Mem, m_ListHead, Elements, |Elements| + 1);
      forall n | 1 <= n <= |Elements|
        ensures Walk(Mem.f, m_ListHead, n) == Elements[n - 1] && Walk(Mem.b, m_ListHead, n) == Elements[|Elements| - n] {
        WalkRing(Mem, m_ListHead, Elements, n);
      }
    }

    /** CLinkListLib::Start */
    constructor ()
      ensures Valid() && Elements == [] && fresh(Known())
    {
      var head := new ListEntry();
      m_ListHead := head;
      m_NumberOfElements := 0;
      Elements := [];
      Mem := Links(map[head := head], map[head := head]);
      new;
      m_ListHead.Flink := m_ListHead;
      m_ListHead.Blink := m_ListHead;
      EmptySound(m_ListHead);
    }

    // ---- single link writes ----

    /** The links of an entry that is about to enter the list. */
    method WriteLinks(entry: ListEntry, flink: ListEntry, blink: ListEntry)
      requires Mirrored()
      modifies this`Mem, entry
      ensures Mirrored() && Mem == Links(old(Mem).f[entry := flink], old(Mem).b[entry := blink])
    {
      entry.Flink := flink;
      entry.Blink := blink;
      Mem := Links(Mem.f[entry := flink], Mem.b[entry := blink]);
    }

    method WriteFlink(entry: ListEntry, flink: ListEntry)
      requires Mirrored() && entry in Mem.f
      modifies this`Mem, entry`Flink
      ensures Mirrored() && Mem == Links(old(Mem).f[entry := flink], old(Mem).b)
    {
      entry.Flink := flink;
      Mem := Links(Mem.f[entry := flink], Mem.b);
    }

    method WriteBlink(entry: ListEntry, blink: ListEntry)
      requires Mirrored() && entry in Mem.b
      modifies this`Mem, entry`Blink
      ensures Mirrored() && Mem == Links(old(Mem).f, old(Mem).b[entry := blink])
    {
      entry.Blink := blink;
      Mem := Links(Mem.f, Mem.b[entry := blink]);
    }

    method ListIsListEmpty() returns (empty: bool)
      requires Valid()
      ensures empty <==> Elements == []
    {
      Neighbours(Mem, m_ListHead, Elements, 0);
      return m_ListHead.Flink == m_ListHead;
    }

    // ---- insertion ----

    method ListInsertHeadList(entry: ListEntry)
      requires Mirrored() && entry != m_ListHead
      requires m_ListHead in Mem.f && Mem.f[m_ListHead] in Mem.b && Mem.f[m_ListHead] != entry
      requires Mem.b[Mem.f[m_ListHead]] == m_ListHead
      modifies this`Mem, this`m_NumberOfElements, Known(), entry
      ensures Mirrored() && Mem == LinkIn(old(Mem), m_ListHead, old(Mem).f[m_ListHead], entry)
      ensures m_NumberOfElements == Wrap(old(m_NumberOfElements) + 1)
    {
      var next := m_ListHead.Flink;
      WriteLinks(entry, next, m_ListHead);
      if next.Blink != m_ListHead {
        return;
      }
      WriteBlink(next, entry);
      WriteFlink(m_ListHead, entry);
      m_NumberOfElements := Wrap(m_NumberOfElements + 1);
    }

    method ListInsertTailList(entry: ListEntry)
      requires Mirrored() && entry != m_ListHead
      requires m_ListHead in Mem.b && Mem.b[m_ListHead] in Mem.f && Mem.b[m_ListHead] != entry
      requires Mem.f[Mem.b[m_ListHead]] == m_ListHead
      modifies this`Mem, this`m_NumberOfElements, Known(), entry
      ensures Mirrored() && Mem == LinkIn(old(Mem), old(Mem).b[m_ListHead], m_ListHead, entry)
      ensures m_NumberOfElements == Wrap(old(m_NumberOfElements) + 1)
    {
      var prev := m_ListHead.Blink;
      WriteLinks(entry, m_ListHead, prev);
      if prev.Flink != m_ListHead {
        return;
      }
      WriteFlink(prev, entry);
      WriteBlink(m_ListHead, entry);
      m_NumberOfElements := Wrap(m_NumberOfElements + 1);
    }

    method PushItemHead(entry: ListEntry)
      requires Valid() && entry != m_ListHead && entry !in Elements
      modifies this, Known(), entry
      ensures Valid()
      ensures Elements == [entry] + old(Elements) && Known() == old(Known()) + {entry}
    {
      PushHeadFacts(Mem, m_ListHead, Elements, entry);
      WrapStep(|Elements|);
      ListInsertHeadList(entry);
      Elements := [entry] + Elements;
    }

    method PushItemTail(entry: ListEntry)
      requires Valid() && entry != m_ListHead && entry !in Elements
      modifies this, Known(), entry
      ensures Valid()
      ensures Elements == old(Elements) + [entry] && Known() == old(Known()) + {entry}
    {
      PushTailFacts(Mem, m_ListHead, Elements, entry);
      WrapStep(|Elements|);
      ListInsertTailList(entry);
      Elements := Elements + [entry];
    }

    // ---- removal ----

    method ListRemoveHeadList() returns (entry: ListEntry?)
      requires Valid() && Elements != []
      modifies this, Known()
      ensures Valid() && Known() == old(Known())
      ensures entry == old(Elements)[0] && Elements == old(Elements)[1..]
    {
      RemoveFacts(Mem, m_ListHead, Elements, 0);
      entry := m_ListHead.Flink;
      var nextEntry := entry.Flink;
      assert entry.Blink == m_ListHead && nextEntry.Blink == entry;
      if entry.Blink != m_ListHead || nextEntry.Blink != entry {
        return null;
      }
      WriteFlink(m_ListHead, nextEntry);
      WriteBlink(nextEntry, m_ListHead);
      WrapStep(|Elements|);
      m_NumberOfElements := Wrap(m_NumberOfElements - 1);
      Elements := Elements[1..];
    }

    method ListRemoveTailList() returns (entry: ListEntry?)
      requires Valid() && Elements != []
      modifies this, Known()
      ensures Valid() && Known() == old(Known())
      ensures entry == old(Elements)[|old(Elements)| - 1] && Elements == old(Elements)[..|old(Elements)| - 1]
    {
      ghost var k := |Elements| - 1;
      RemoveFacts(Mem, m_ListHead, Elements, k);
      entry := m_ListHead.Blink;
      var prevEntry := entry.Blink;
      assert entry.Flink == m_ListHead && prevEntry.Flink == entry;
      if entry.Flink != m_ListHead || prevEntry.Flink != entry {
        return null;
      }
      WriteBlink(m_ListHead, prevEntry);
      WriteFlink(prevEntry, m_ListHead);
      WrapStep(|Elements|);
      m_NumberOfElements := Wrap(m_NumberOfElements - 1);
      Elements := Elements[..k];
    }

    method PopItemHead() returns (item: ListEntry?)
      requires Valid()
      modifies this, Known()
      ensures Valid() && Known() == old(Known())
      ensures if old(Elements) == [] then item == null && Elements == []
              else item == old(Elements)[0] && Elements == old(Elements)[1..]
    {
      var empty := ListIsListEmpty();
      if empty {
        return null;
      }
      item := ListRemoveHeadList();
    }

    method PopItemTail() returns (item: ListEntry?)
      requires Valid()
      modifies this, Known()
      ensures Valid() && Known() == old(Known())
      ensures if old(Elements) == [] then item == null && Elements == []
              else item == old(Elements)[|old(Elements)| - 1] && Elements == old(Elements)[..|old(Elements)| - 1]
    {
      var empty := ListIsListEmpty();
      if empty {
        return null;
      }
      item := ListRemoveTailList();
    }

    /** The test on the neighbours' links, and the two writes. */
    method DoRemove(entry: ListEntry) returns (removed: bool)
      requires Mirrored() && entry in Mem.f && entry in Mem.b && Mem.f[entry] in Mem.b && Mem.b[entry] in Mem.f
      modifies this`Mem, this`m_NumberOfElements, Known()
      ensures Mirrored()
      ensures removed <==> old(Mem).b[old(Mem).f[entry]] == entry && old(Mem).f[old(Mem).b[entry]] == entry
      ensures removed ==> Mem == LinkOut(old(Mem), old(Mem).b[entry], old(Mem).f[entry])
                          && m_NumberOfElements == Wrap(old(m_NumberOfElements) - 1)
      ensures !removed ==> Mem == old(Mem) && m_NumberOfElements == old(m_NumberOfElements)
    {
      var nextEntry := entry.Flink;
      var prevEntry := entry.Blink;
      if nextEntry.Blink != entry || prevEntry.Flink != entry {
        return false;
      }
      WriteFlink(prevEntry, nextEntry);
      WriteBlink(nextEntry, prevEntry);
      m_NumberOfElements := Wrap(m_NumberOfElements - 1);
      return true;
    }

    /** An entry that ever was in the list is told from the members by its links. An element that was
        never in a list has NULL links, and one of them is followed: that is the fault. */
    method RemoveElement(element: ListEntry) returns (removed: bool, fault: bool)
      requires Valid() && element != m_ListHead
      requires element in Mem.f || (element.Flink == null && element.Blink == null)
      modifies this, Known()
      ensures Valid() && Known() == old(Known())
      ensures fault <==> element !in old(Mem).f
      ensures removed <==> element in old(Elements)
      ensures !removed ==> Mem == old(Mem) && Elements == old(Elements) && m_NumberOfElements == old(m_NumberOfElements)
      ensures removed ==> exists k | 0 <= k < |old(Elements)| ::
                            old(Elements)[k] == element && Elements == Drop(old(Elements), k)
    {
      if element.Flink == null {
        NullIsNoMember(element);
        return false, true;
      }
      MemberExact(Mem, m_ListHead, Elements, element);
      ghost var k := if i :| 0 <= i < |Elements| && Elements[i] == element then i else 0;
      if element in Elements {
        RemoveFacts(Mem, m_ListHead, Elements, k);
        WrapStep(|Elements|);
      }
      fault := false;
      removed := DoRemove(element);
      if removed {
        Elements := Drop(Elements, k);
      }
    }

    lemma NullIsNoMember(element: ListEntry)
      requires Valid() && element.Flink == null
      ensures element !in Mem.f && element !in Elements
    {
      if k :| 0 <= k < |Elements| && Elements[k] == element {
        RemoveFacts(Mem, m_ListHead, Elements, k);
      }
    }

    // ---- search ----

    /** GetElement and GetElementEx: the first element the callback accepts, taken out on demand. */
    method GetElementCommon(callback: Callback, removal: bool) returns (found: ListEntry?)
      requires Valid()
      modifies this, Known()
      ensures Valid() && Known() == old(Known())
      ensures found == null <==> forall e | e in old(Elements) :: !callback(e, Wrap(|old(Elements)|))
      ensures found == null || !removal ==> Elements == old(Elements)
      ensures found != null ==> exists k | 0 <= k < |old(Elements)| ::
                && old(Elements)[k] == found && callback(found, Wrap(|old(Elements)|))
                && (forall i | 0 <= i < k :: !callback(old(Elements)[i], Wrap(|old(Elements)|)))
                && (removal ==> Elements == Drop(old(Elements), k))
    {
      ghost var m, elements := Mem, Elements;
      Neighbours(m, m_ListHead, elements, 0);
      var temp := m_ListHead.Flink;
      ghost var k := 0;
      while temp != m_ListHead
        invariant 0 <= k <= |elements| && temp == At(m_ListHead, elements, k + 1) && temp in Mem.b
        invariant Valid() && Mem == m && Elements == elements && Known() == old(Known())
        invariant forall i | 0 <= i < k :: !callback(elements[i], m_NumberOfElements)
        decreases |elements| - k
      {
        Neighbours(m, m_ListHead, elements, k);
        if callback(temp, m_NumberOfElements) {
          if removal {
            var removed, fault := RemoveElement(temp);
            ghost var j :| 0 <= j < |elements| && elements[j] == temp && Elements == Drop(elements, j);
            assert elements[j] == elements[k];
          }
          return temp;
        }
        Neighbours(m, m_ListHead, elements, k + 1);
        temp := temp.Flink;
        k := k + 1;
      }
      Neighbours(m, m_ListHead, elements, k);
      return null;
    }
  }
}
