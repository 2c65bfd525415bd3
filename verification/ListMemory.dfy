/** The links of a circular list as a value: what every entry's Flink and Blink hold.

  Both the list over the heap (LinkList.dfy) and the list shared by threads (SharedList.dfy) are
  proved with the lemmas of this module. An entry with NULL links is in neither map. */
module ListMemory {

  datatype Links<E> = Links(f: map<E, E>, b: map<E, E>)

  type DWORD = n: int | 0 <= n < 0x1_0000_0000

  function Wrap(n: int): DWORD {
    n % 0x1_0000_0000
  }

  lemma WrapStep(n: nat)
    ensures Wrap(Wrap(n) + 1) == Wrap(n + 1)
    ensures n > 0 ==> Wrap(Wrap(n) - 1) == Wrap(n - 1)
  {
  }

  /** The counter is the number of elements up to 2^32 - 1 of them, and is off by multiples of 2^32 beyond. */
  lemma WrapExact(n: nat) returns (q: nat)
    ensures n == q * 0x1_0000_0000 + Wrap(n)
    ensures n < 0x1_0000_0000 ==> Wrap(n) == n
  {
    q := n / 0x1_0000_0000;
  }

  /** Position 0 and position |s| + 1 of the ring are the sentinel; the elements are in between. */
  function At<E>(head: E, s: seq<E>, i: nat): E
    requires i <= |s| + 1
  {
    if i == 0 || i == |s| + 1 then head else s[i - 1]
  }

  ghost predicate Distinct<E>(head: E, s: seq<E>) {
    && (forall i {:trigger s[i]} | 0 <= i < |s| :: s[i] != head)
    && (forall i, j {:trigger s[i], s[j]} | 0 <= i < j < |s| :: s[i] != s[j])
  }

  /** Each Flink leads to the next entry of the ring and each Blink back to the one before. */
  ghost predicate Linked<E>(m: Links<E>, head: E, s: seq<E>) {
    && (forall i {:trigger At(head, s, i)} | 0 <= i <= |s| :: Forward(m.f, head, s, i))
    && (forall i {:trigger At(head, s, i)} | 1 <= i <= |s| + 1 :: Backward(m.b, head, s, i))
  }

  ghost predicate Forward<E>(f: map<E, E>, head: E, s: seq<E>, i: nat)
    requires i <= |s|
  {
    At(head, s, i) in f && f[At(head, s, i)] == if i == |s| then head else s[i]
  }

  ghost predicate Backward<E>(b: map<E, E>, head: E, s: seq<E>, i: nat)
    requires 1 <= i <= |s| + 1
  {
    At(head, s, i) in b && b[At(head, s, i)] == if i == 1 then head else s[i - 2]
  }

  /** An entry that left keeps its links, but its successor does not point back to it. */
  ghost predicate Departed<E>(m: Links<E>, e: E) {
    && e in m.f && e in m.b && m.f[e] in m.b && m.b[e] in m.f
    && m.b[m.f[e]] != e
  }

  ghost predicate Stale<E>(m: Links<E>, head: E, s: seq<E>) {
    forall e {:trigger Departed(m, e)} | e in m.f && e != head && e !in s :: Departed(m, e)
  }

  ghost predicate Sound<E>(m: Links<E>, head: E, s: seq<E>) {
    Distinct(head, s) && Linked(m, head, s) && Stale(m, head, s)
  }

  function Insert<E>(s: seq<E>, k: nat, e: E): seq<E>
    requires k <= |s|
  {
    s[..k] + [e] + s[k..]
  }

  function Drop<E>(s: seq<E>, k: nat): seq<E>
    requires k < |s|
  {
    s[..k] + s[k + 1..]
  }

  /** All entries that have links. */
  function Entries<E>(m: Links<E>): set<E> {
    m.f.Keys + m.b.Keys
  }

  /** The four link writes that put `e` between `prev` and `next`. */
  function LinkIn<E>(m: Links<E>, prev: E, next: E, e: E): Links<E> {
    Links(m.f[e := next][prev := e], m.b[e := prev][next := e])
  }

  /** The two link writes that close the gap between `prev` and `next`. */
  function LinkOut<E>(m: Links<E>, prev: E, next: E): Links<E> {
    Links(m.f[prev := next], m.b[next := prev])
  }

  /** Two positions of the ring hold the same entry only when both are the sentinel's. */
  lemma PositionUnique<E>(head: E, s: seq<E>, i: nat, j: nat)
    requires Distinct(head, s) && i < j <= |s| + 1 && (i > 0 || j <= |s|)
    ensures At(head, s, i) != At(head, s, j)
  {
  }

  /** Neighbours in the ring, and the test for its end. */
  lemma Neighbours<E>(m: Links<E>, head: E, s: seq<E>, i: nat)
    requires Sound(m, head, s) && i <= |s|
    ensures var here, next := At(head, s, i), At(head, s, i + 1);
            here in m.f && m.f[here] == next && next in m.b && m.b[next] == here
    ensures i > 0 ==> At(head, s, i) != head
    ensures At(head, s, i + 1) == head <==> i == |s|
  {
    assert Forward(m.f, head, s, i);
    assert Backward(m.b, head, s, i + 1);
  }

  lemma EmptySound<E>(head: E)
    ensures Sound(Links(map[head := head], map[head := head]), head, [])
  {
    var m, s: seq<E> := Links(map[head := head], map[head := head]), [];
    assert Forward(m.f, head, s, 0);
    assert Backward(m.b, head, s, 1);
  }

  lemma InsertForward<E>(m: Links<E>, head: E, s: seq<E>, k: nat, e: E, i: nat)
    requires Sound(m, head, s) && k <= |s| && e != head && e !in s && i <= |s| + 1
    ensures var m' := LinkIn(m, At(head, s, k), At(head, s, k + 1), e);
            Forward(m'.f, head, Insert(s, k, e), i)
  {
    var old_ := if i <= k then i else i - 1;
    Neighbours(m, head, s, old_);
    if i < k {
      PositionUnique(head, s, i, k);
    } else if i > k + 1 {
      PositionUnique(head, s, k, old_);
    }
  }

  lemma InsertBackward<E>(m: Links<E>, head: E, s: seq<E>, k: nat, e: E, i: nat)
    requires Sound(m, head, s) && k <= |s| && e != head && e !in s && 1 <= i <= |s| + 2
    ensures var m' := LinkIn(m, At(head, s, k), At(head, s, k + 1), e);
            Backward(m'.b, head, Insert(s, k, e), i)
  {
    var old_ := if i <= k then i else i - 1;
    if old_ > 0 {
      Neighbours(m, head, s, old_ - 1);
    }
    if i <= k {
      PositionUnique(head, s, i, k + 1);
    } else if i > k + 2 {
      PositionUnique(head, s, k + 1, old_);
    }
  }

  lemma InsertLinked<E>(m: Links<E>, head: E, s: seq<E>, k: nat, e: E)
    requires Sound(m, head, s) && k <= |s| && e != head && e !in s
    ensures var m', s' := LinkIn(m, At(head, s, k), At(head, s, k + 1), e), Insert(s, k, e);
            Distinct(head, s') && Linked(m', head, s')
  {
    var m', s' := LinkIn(m, At(head, s, k), At(head, s, k + 1), e), Insert(s, k, e);
    forall i | 0 <= i <= |s| + 1
      ensures Forward(m'.f, head, s', i) {
      InsertForward(m, head, s, k, e, i);
    }
    forall i | 1 <= i <= |s| + 2
      ensures Backward(m'.b, head, s', i) {
      InsertBackward(m, head, s, k, e, i);
    }
  }

  /** Linking an entry in keeps the ring, and keeps every departed entry departed. */
  lemma InsertSound<E>(m: Links<E>, head: E, s: seq<E>, k: nat, e: E)
    requires Sound(m, head, s) && k <= |s| && e != head && e !in s
    ensures var m', s' := LinkIn(m, At(head, s, k), At(head, s, k + 1), e), Insert(s, k, e);
            Sound(m', head, s')
  {
    InsertLinked(m, head, s, k, e);
    Neighbours(m, head, s, k);
    var prev, next := At(head, s, k), At(head, s, k + 1);
    var s', m' := Insert(s, k, e), LinkIn(m, prev, next, e);
    assert s == s[..k] + s[k..];
    assert forall x :: x in s' <==> x == e || x in s;
    forall x | x in m'.f && x != head && x !in s' ensures Departed(m', x) {
      assert Departed(m, x);
    }
  }

  lemma DropForward<E>(m: Links<E>, head: E, s: seq<E>, k: nat, i: nat)
    requires Sound(m, head, s) && k < |s| && i < |s|
    ensures Forward(LinkOut(m, At(head, s, k), At(head, s, k + 2)).f, head, Drop(s, k), i)
  {
    var old_ := if i <= k then i else i + 1;
    Neighbours(m, head, s, old_);
    if i < k {
      PositionUnique(head, s, i, k);
    } else if i > k {
      PositionUnique(head, s, k, old_);
    }
  }

  lemma DropBackward<E>(m: Links<E>, head: E, s: seq<E>, k: nat, i: nat)
    requires Sound(m, head, s) && k < |s| && 1 <= i <= |s|
    ensures Backward(LinkOut(m, At(head, s, k), At(head, s, k + 2)).b, head, Drop(s, k), i)
  {
    var old_ := if i <= k then i else i + 1;
    Neighbours(m, head, s, old_ - 1);
    if i <= k {
      PositionUnique(head, s, i, k + 2);
    } else if i > k + 1 {
      PositionUnique(head, s, k + 2, old_);
    }
  }

  lemma DropLinked<E>(m: Links<E>, head: E, s: seq<E>, k: nat)
    requires Sound(m, head, s) && k < |s|
    ensures var m', s' := LinkOut(m, At(head, s, k), At(head, s, k + 2)), Drop(s, k);
            Distinct(head, s') && Linked(m', head, s') && s[k] !in s'
  {
    var m', s' := LinkOut(m, At(head, s, k), At(head, s, k + 2)), Drop(s, k);
    forall i | 0 <= i < |s|
      ensures Forward(m'.f, head, s', i) {
      DropForward(m, head, s, k, i);
    }
    forall i | 1 <= i <= |s|
      ensures Backward(m'.b, head, s', i) {
      DropBackward(m, head, s, k, i);
    }
  }

  /** Linking an entry out keeps the ring, and makes the entry a departed one. */
  lemma DropSound<E>(m: Links<E>, head: E, s: seq<E>, k: nat)
    requires Sound(m, head, s) && k < |s|
    ensures Sound(LinkOut(m, At(head, s, k), At(head, s, k + 2)), head, Drop(s, k))
    ensures s[k] !in Drop(s, k) && s[k] != head
  {
    DropLinked(m, head, s, k);
    Neighbours(m, head, s, k);
    Neighbours(m, head, s, k + 1);
    PositionUnique(head, s, k, k + 1);
    var s', m' := Drop(s, k), LinkOut(m, At(head, s, k), At(head, s, k + 2));
    assert s == s[..k] + [s[k]] + s[k + 1..];
    assert forall x :: x in s <==> x == s[k] || x in s';
    forall x | x in m'.f && x != head && x !in s' ensures Departed(m', x) {
      if x != s[k] {
        assert Departed(m, x);
      }
    }
  }

  /** The test of RemoveElement finds exactly the members. */
  lemma MemberExact<E>(m: Links<E>, head: E, s: seq<E>, e: E)
    requires Sound(m, head, s) && e in m.f && e != head
    ensures e in m.b && m.f[e] in m.b && m.b[e] in m.f
    ensures e in s <==> m.b[m.f[e]] == e && m.f[m.b[e]] == e
  {
    if e in s {
      var i :| 0 <= i < |s| && s[i] == e;
      Neighbours(m, head, s, i);
      Neighbours(m, head, s, i + 1);
    } else {
      assert Departed(m, e);
    }
  }

  // ---- what each list routine reads, and what its writes make of the ring ----

  lemma PushHeadFacts<E>(m: Links<E>, head: E, s: seq<E>, e: E)
    requires Sound(m, head, s) && e != head && e !in s
    ensures head in m.f && m.f[head] in m.b && m.b[m.f[head]] == head && m.f[head] != e
    ensures var m' := LinkIn(m, head, m.f[head], e); Sound(m', head, [e] + s) && Entries(m') == Entries(m) + {e}
  {
    Neighbours(m, head, s, 0);
    InsertSound(m, head, s, 0, e);
    assert Insert(s, 0, e) == [e] + s;
  }

  lemma PushTailFacts<E>(m: Links<E>, head: E, s: seq<E>, e: E)
    requires Sound(m, head, s) && e != head && e !in s
    ensures head in m.b && m.b[head] in m.f && m.f[m.b[head]] == head && m.b[head] != e
    ensures var m' := LinkIn(m, m.b[head], head, e); Sound(m', head, s + [e]) && Entries(m') == Entries(m) + {e}
  {
    Neighbours(m, head, s, |s|);
    InsertSound(m, head, s, |s|, e);
    assert Insert(s, |s|, e) == s + [e];
  }

  lemma RemoveFacts<E>(m: Links<E>, head: E, s: seq<E>, k: nat)
    requires Sound(m, head, s) && k < |s|
    ensures var e := s[k];
            && e in m.f && e in m.b && m.f[e] in m.b && m.b[e] in m.f
            && m.b[m.f[e]] == e && m.f[m.b[e]] == e && e != head
            && Sound(LinkOut(m, m.b[e], m.f[e]), head, Drop(s, k))
    ensures head in m.f && head in m.b
    ensures k == 0 ==> m.f[head] == s[0] && m.b[s[0]] == head && Drop(s, 0) == s[1..]
    ensures k == |s| - 1 ==> m.b[head] == s[k] && m.f[s[k]] == head && Drop(s, k) == s[..k]
  {
    Neighbours(m, head, s, 0);
    Neighbours(m, head, s, |s|);
    Neighbours(m, head, s, k);
    Neighbours(m, head, s, k + 1);
    DropSound(m, head, s, k);
  }

  // ---- walking ----

  /** The entry `n` steps of Flink (or of Blink) away. */
  ghost function Walk<E>(links: map<E, E>, e: E, n: nat): E {
    if n == 0 then e
    else
      var p := Walk(links, e, n - 1);
      if p in links then links[p] else p
  }

  /** From the sentinel, Flink visits the ring and Blink visits it backwards. */
  lemma {:induction false} WalkRing<E>(m: Links<E>, head: E, s: seq<E>, n: nat)
    requires Sound(m, head, s) && n <= |s| + 1
    ensures Walk(m.f, head, n) == At(head, s, n)
    ensures Walk(m.b, head, n) == At(head, s, |s| + 1 - n)
  {
    if n > 0 {
      WalkRing(m, head, s, n - 1);
      Neighbours(m, head, s, n - 1);
      Neighbours(m, head, s, |s| + 1 - n);
    }
  }
}
