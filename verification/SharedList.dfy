/** LinkListLib.cpp under CriticalSection.cpp: the list shared by any number of threads.

  A step is one kernel call of the lock, or one statement of a list routine: a single link or
  counter is read or written, or a callback runs on one element. Steps of different threads
  interleave freely. Elements and the sentinel are addresses. */
module SharedList {
  import opened Wrappers
  import opened ListMemory
  import L = CriticalSection

  type Addr = nat

  type Callback = (Addr, DWORD) -> bool

  datatype Op =
    | PushHead(e: Addr)
    | PushTail(e: Addr)
    | PopHead
    | PopTail
    | GetElement(callback: Callback, removal: bool)
    | RemoveElement(e: Addr)     // with AcquireLock

  function ModeOf(op: Op): L.Mode {
    if op.GetElement? && !op.removal then L.Shared else L.Exclusive
  }

  // ---- the operations on a sequence ----

  function FindFrom(s: seq<Addr>, callback: Callback, count: DWORD, i: nat): (k: nat)
    requires i <= |s|
    ensures i <= k <= |s|
    ensures forall j | i <= j < k :: !callback(s[j], count)
    ensures k < |s| ==> callback(s[k], count)
    decreases |s| - i
  {
    if i == |s| || callback(s[i], count) then i else FindFrom(s, callback, count, i + 1)
  }

  function IndexOf(s: seq<Addr>, e: Addr): (k: nat)
    ensures k <= |s| && (k < |s| ==> s[k] == e) && (k == |s| <==> e !in s)
  {
    if s == [] || s[0] == e then 0 else 1 + IndexOf(s[1..], e)
  }

  function SeqOp(s: seq<Addr>, op: Op): (seq<Addr>, Option<Addr>) {
    match op
    case PushHead(e) => ([e] + s, None)
    case PushTail(e) => (s + [e], None)
    case PopHead => if s == [] then (s, None) else (s[1..], Some(s[0]))
    case PopTail => if s == [] then (s, None) else (s[..|s| - 1], Some(s[|s| - 1]))
    case GetElement(callback, removal) =>
      var k := FindFrom(s, callback, Wrap(|s|), 0);
      if k == |s| then (s, None)
      else (if removal then Drop(s, k) else s, Some(s[k]))
    case RemoveElement(e) => if e in s then (Drop(s, IndexOf(s, e)), Some(e)) else (s, None)
  }

  /** The operations by the places of the elements. */
  lemma DequeExact(s: seq<Addr>, op: Op)
    requires !op.GetElement? && !op.RemoveElement?
    ensures var (r, result) := SeqOp(s, op);
            match op
            case PushHead(e) =>
              |r| == |s| + 1 && r[0] == e && (forall i | 0 <= i < |s| :: r[i + 1] == s[i]) && result.None?
            case PushTail(e) =>
              |r| == |s| + 1 && r[|s|] == e && (forall i | 0 <= i < |s| :: r[i] == s[i]) && result.None?
            case PopHead =>
              if |s| == 0 then |r| == 0 && result.None?
              else |r| == |s| - 1 && result == Some(s[0]) && (forall i | 0 <= i < |r| :: r[i] == s[i + 1])
            case PopTail =>
              if |s| == 0 then |r| == 0 && result.None?
              else |r| == |s| - 1 && result == Some(s[|s| - 1]) && (forall i | 0 <= i < |r| :: r[i] == s[i])
            case _ => true
  {
  }

  lemma SearchExact(s: seq<Addr>, op: Op)
    requires op.GetElement?
    ensures var (r, result) := SeqOp(s, op);
            && FirstMatch(s, op.callback, Wrap(|s|), result)
            && (|s| < 0x1_0000_0000 ==> Wrap(|s|) == |s|)
            && (result.None? || !op.removal ==> r == s)
            && (result.Some? && op.removal ==>
                  exists k :: Taken(s, k, result.value, r) && !EarlierMatch(s, op.callback, k))
  {
    var q := WrapExact(|s|);
    var k := FindFrom(s, op.callback, Wrap(|s|), 0);
    if k < |s| && op.removal {
      assert Taken(s, k, s[k], SeqOp(s, op).0);
    }
  }

  lemma RemovalExact(s: seq<Addr>, op: Op)
    requires op.RemoveElement?
    ensures var (r, result) := SeqOp(s, op);
            && (result.Some? <==> op.e in s) && (result.None? ==> r == s)
            && (result.Some? ==> result == Some(op.e) && exists k :: Taken(s, k, op.e, r))
  {
    if op.e in s {
      assert Taken(s, IndexOf(s, op.e), op.e, SeqOp(s, op).0);
    }
  }

  /** `r` is `s` without the element `e` at place `k`. */
  ghost predicate Taken(s: seq<Addr>, k: nat, e: Addr, r: seq<Addr>) {
    && k < |s| && s[k] == e && |r| == |s| - 1
    && forall i | 0 <= i < |r| :: r[i] == if i < k then s[i] else s[i + 1]
  }

  ghost predicate EarlierMatch(s: seq<Addr>, callback: Callback, k: nat) {
    exists i | 0 <= i < k < |s| :: callback(s[i], Wrap(|s|))
  }

  /** The callback sees the number of elements; the first element it accepts is the result. */
  ghost predicate FirstMatch(s: seq<Addr>, callback: Callback, count: DWORD, result: Option<Addr>) {
    if result.None? then forall i | 0 <= i < |s| :: !callback(s[i], count)
    else exists k | 0 <= k < |s| :: s[k] == result.value && callback(s[k], count) && forall i | 0 <= i < k :: !callback(s[i], count)
  }

  // ---- the statements of the list routines ----

  datatype Mem = Mem(links: Links<Addr>, count: DWORD)

  datatype Regs = Regs(pc: nat, x: Addr, y: Addr, z: Addr, done: bool, result: Option<Addr>,
                       fault: bool, visited: seq<Addr>)

  const START := Regs(0, 0, 0, 0, false, None, false, [])

  function Read(links: map<Addr, Addr>, e: Addr): Addr {
    if e in links then links[e] else e
  }

  function Done(r: Regs, result: Option<Addr>): Regs {
    r.(done := true, result := result)
  }

  /** The next statement of `op`; reading a link that is NULL is a fault. */
  function Micro(op: Op, head: Addr, r: Regs, m: Mem): (Regs, Mem) {
    var f, b := m.links.f, m.links.b;
    var next := r.(pc := r.pc + 1);
    match op
    case PushHead(e) =>
      (match r.pc
       case 0 => (next.(x := Read(f, head), fault := head !in f), m)
       case 1 => (next, m.(links := Links(f[e := r.x], b)))
       case 2 => (next, m.(links := Links(f, b[e := head])))
       case 3 => (if Read(b, r.x) != head then Done(r, None) else next.(fault := r.x !in b), m)
       case 4 => (next, m.(links := Links(f, b[r.x := e])))
       case 5 => (next, m.(links := Links(f[head := e], b)))
       case _ => (Done(r, None), m.(count := Wrap(m.count + 1))))
    case PushTail(e) =>
      (match r.pc
       case 0 => (next.(x := Read(b, head), fault := head !in b), m)
       case 1 => (next, m.(links := Links(f[e := head], b)))
       case 2 => (next, m.(links := Links(f, b[e := r.x])))
       case 3 => (if Read(f, r.x) != head then Done(r, None) else next.(fault := r.x !in f), m)
       case 4 => (next, m.(links := Links(f[r.x := e], b)))
       case 5 => (next, m.(links := Links(f, b[head := e])))
       case _ => (Done(r, None), m.(count := Wrap(m.count + 1))))
    case PopHead =>
      (match r.pc
       case 0 => (if Read(f, head) == head then Done(r, None) else next.(fault := head !in f), m)
       case 1 => (next.(x := Read(f, head)), m)
       case 2 => (next.(y := Read(f, r.x), fault := r.x !in f), m)
       case 3 => (if Read(b, r.x) != head then Done(r, None) else next.(fault := r.x !in b), m)
       case 4 => (if Read(b, r.y) != r.x then Done(r, None) else next.(fault := r.y !in b), m)
       case 5 => (next, m.(links := Links(f[head := r.y], b)))
       case 6 => (next, m.(links := Links(f, b[r.y := head])))
       case _ => (Done(r, Some(r.x)), m.(count := Wrap(m.count - 1))))
    case PopTail =>
      (match r.pc
       case 0 => (if Read(f, head) == head then Done(r, None) else next.(fault := head !in f), m)
       case 1 => (next.(x := Read(b, head), fault := head !in b), m)
       case 2 => (next.(y := Read(b, r.x), fault := r.x !in b), m)
       case 3 => (if Read(f, r.x) != head then Done(r, None) else next.(fault := r.x !in f), m)
       case 4 => (if Read(f, r.y) != r.x then Done(r, None) else next.(fault := r.y !in f), m)
       case 5 => (next, m.(links := Links(f, b[head := r.y])))
       case 6 => (next, m.(links := Links(f[r.y := head], b)))
       case _ => (Done(r, Some(r.x)), m.(count := Wrap(m.count - 1))))
    case GetElement(callback, removal) =>
      (match r.pc
       case 0 => (next.(x := Read(f, head), fault := head !in f), m)
       case 1 =>
         if r.x == head then (Done(r, None), m)
         else
           var seen := r.(visited := r.visited + [r.x]);
           if !callback(r.x, m.count) then (seen.(pc := 9), m)
           else if removal then (seen.(pc := 2), m)
           else (Done(seen, Some(r.x)), m)
       case 2 => (next.(y := Read(f, r.x), fault := r.x !in f), m)
       case 3 => (next.(z := Read(b, r.x), fault := r.x !in b), m)
       case 4 => (if Read(b, r.y) != r.x then Done(r, Some(r.x)) else next.(fault := r.y !in b), m)
       case 5 => (if Read(f, r.z) != r.x then Done(r, Some(r.x)) else next.(fault := r.z !in f), m)
       case 6 => (next, m.(links := Links(f[r.z := r.y], b)))
       case 7 => (next, m.(links := Links(f, b[r.y := r.z])))
       case 8 => (Done(r, Some(r.x)), m.(count := Wrap(m.count - 1)))
       case _ => (r.(pc := 1, x := Read(f, r.x), fault := r.x !in f), m))
    case RemoveElement(e) =>
      (match r.pc
       case 0 => (next.(x := Read(f, e), fault := e !in f), m)
       case 1 => (next.(y := Read(b, e), fault := e !in b), m)
       case 2 =>
         var seen := next.(fault := r.x !in b);
         (if Read(b, r.x) != e then Done(seen, None) else seen, m)
       case 3 =>
         var seen := next.(fault := r.y !in f);
         (if Read(f, r.y) != e then Done(seen, None) else seen, m)
       case 4 => (next, m.(links := Links(f[r.y := r.x], b)))
       case 5 => (next, m.(links := Links(f, b[r.x := r.y])))
       case _ => (Done(r, Some(e)), m.(count := Wrap(m.count - 1))))
  }

  // ---- what holds between the statements ----

  ghost predicate SoundMem(m: Mem, head: Addr, s: seq<Addr>) {
    Sound(m.links, head, s) && m.count == Wrap(|s|)
  }

  /** The memory after the first `n` of the writes that link `e` in between `prev` and `next`. */
  ghost predicate PushPoint(r: Regs, m: Mem, m0: Mem, head: Addr, s: seq<Addr>, k: nat, e: Addr, atHead: bool)
    requires k <= |s|
  {
    var f, b := m0.links.f, m0.links.b;
    var prev, next := At(head, s, k), At(head, s, k + 1);
    && (if r.done then m == Mem(LinkIn(m0.links, prev, next, e), Wrap(m0.count + 1)) && r.result.None?
        else
          && r.pc <= 6 && m.count == m0.count
          && (r.pc >= 1 ==> r.x == if atHead then next else prev)
          && (r.pc <= 1 ==> m.links == Links(f, b))
          && (r.pc == 2 ==> m.links == Links(f[e := next], b))
          && (3 <= r.pc <= 4 ==> m.links == Links(f[e := next], b[e := prev]))
          && (r.pc == 5 ==> m.links == if atHead then Links(f[e := next], b[e := prev][next := e])
                                       else Links(f[e := next][prev := e], b[e := prev]))
          && (r.pc == 6 ==> m.links == LinkIn(m0.links, prev, next, e)))
  }

  ghost predicate PopPoint(r: Regs, m: Mem, m0: Mem, head: Addr, s: seq<Addr>, atHead: bool) {
    if s == [] then m == m0 && (if r.done then r.result.None? else r.pc == 0)
    else
      var k := if atHead then 0 else |s| - 1;
      var prev, next := At(head, s, k), At(head, s, k + 2);
      var f, b := m0.links.f, m0.links.b;
      && (if r.done then m == Mem(LinkOut(m0.links, prev, next), Wrap(m0.count - 1)) && r.result == Some(s[k])
          else
            && r.pc <= 7 && m.count == m0.count
            && (r.pc >= 2 ==> r.x == s[k])
            && (r.pc >= 3 ==> r.y == if atHead then next else prev)
            && (r.pc <= 5 ==> m.links == Links(f, b))
            && (r.pc == 6 ==> m.links == if atHead then Links(f[prev := next], b) else Links(f, b[next := prev]))
            && (r.pc == 7 ==> m.links == LinkOut(m0.links, prev, next)))
  }

  /** A search has visited exactly a prefix of the list, and nothing in front matched. */
  ghost predicate GetPoint(r: Regs, m: Mem, m0: Mem, head: Addr, s: seq<Addr>, callback: Callback, removal: bool) {
    var n := |r.visited|;
    && n <= |s| && r.visited == s[..n]
    && (forall j | 0 <= j < n - 1 :: !callback(s[j], m0.count))
    && (if r.done && r.result.None? then m == m0 && n == |s| && (n > 0 ==> !callback(s[n - 1], m0.count))
        else if r.pc == 0 && !r.done then m == m0 && n == 0
        else if r.pc == 1 && !r.done then
          m == m0 && r.x == At(head, s, n + 1) && (n > 0 ==> !callback(s[n - 1], m0.count))
        else if r.pc == 9 && !r.done then m == m0 && n > 0 && r.x == s[n - 1] && !callback(s[n - 1], m0.count)
        else
          n > 0 && callback(s[n - 1], m0.count)
          && var prev, next := At(head, s, n - 1), At(head, s, n + 1);
             var f, b := m0.links.f, m0.links.b;
             (if r.done then
                && r.result == Some(s[n - 1])
                && m == if removal then Mem(LinkOut(m0.links, prev, next), Wrap(m0.count - 1)) else m0
              else
                && removal && 2 <= r.pc <= 8 && r.x == s[n - 1] && m.count == m0.count
                && (r.pc >= 3 ==> r.y == next) && (r.pc >= 4 ==> r.z == prev)
                && (r.pc <= 6 ==> m.links == Links(f, b))
                && (r.pc == 7 ==> m.links == Links(f[prev := next], b))
                && (r.pc == 8 ==> m.links == LinkOut(m0.links, prev, next))))
  }

  ghost predicate RemovePoint(r: Regs, m: Mem, m0: Mem, s: seq<Addr>, e: Addr)
    requires e in m0.links.f && e in m0.links.b
  {
    var next, prev := m0.links.f[e], m0.links.b[e];
    if r.done then
      if e in s then m == Mem(LinkOut(m0.links, prev, next), Wrap(m0.count - 1)) && r.result == Some(e)
      else m == m0 && r.result.None?
    else
      && r.pc <= 6 && m.count == m0.count && (r.pc >= 4 ==> e in s)
      && (r.pc == 3 ==> next in m0.links.b && m0.links.b[next] == e)
      && (r.pc >= 1 ==> r.x == next) && (r.pc >= 2 ==> r.y == prev)
      && (r.pc <= 4 ==> m.links == m0.links)
      && (r.pc == 5 ==> m.links == Links(m0.links.f[prev := next], m0.links.b))
      && (r.pc == 6 ==> m.links == LinkOut(m0.links, prev, next))
  }

  /** Only an element that has links, because it is or was in the list, is given to RemoveElement. */
  ghost predicate Removable(op: Op, head: Addr, m: Mem) {
    op.RemoveElement? ==> op.e != head && op.e in m.links.f
  }

  /** A routine that began with memory `m0` and list `s` stands at `r` with memory `m`. */
  ghost predicate Point(op: Op, r: Regs, m: Mem, m0: Mem, head: Addr, s: seq<Addr>) {
    && !r.fault
    && match op
       case PushHead(e) => PushPoint(r, m, m0, head, s, 0, e, true)
       case PushTail(e) => PushPoint(r, m, m0, head, s, |s|, e, false)
       case PopHead => PopPoint(r, m, m0, head, s, true)
       case PopTail => PopPoint(r, m, m0, head, s, false)
       case GetElement(callback, removal) => GetPoint(r, m, m0, head, s, callback, removal)
       case RemoveElement(e) =>
         e != head && e in m0.links.f && e in m0.links.b && RemovePoint(r, m, m0, s, e)
  }

  ghost predicate Pushable(op: Op, head: Addr, s: seq<Addr>) {
    op.PushHead? || op.PushTail? ==> op.e != head && op.e !in s
  }

  lemma MicroPush(op: Op, r: Regs, m: Mem, m0: Mem, head: Addr, s: seq<Addr>)
    requires op.PushHead? || op.PushTail?
    requires SoundMem(m0, head, s) && Pushable(op, head, s) && Point(op, r, m, m0, head, s) && !r.done
    ensures var (r', m') := Micro(op, head, r, m); Point(op, r', m', m0, head, s)
  {
    Neighbours(m0.links, head, s, if op.PushHead? then 0 else |s|);
  }

  lemma MicroPop(op: Op, r: Regs, m: Mem, m0: Mem, head: Addr, s: seq<Addr>)
    requires op.PopHead? || op.PopTail?
    requires SoundMem(m0, head, s) && Point(op, r, m, m0, head, s) && !r.done
    ensures var (r', m') := Micro(op, head, r, m); Point(op, r', m', m0, head, s)
  {
    Neighbours(m0.links, head, s, 0);
    if s != [] {
      var k := if op.PopHead? then 0 else |s| - 1;
      Neighbours(m0.links, head, s, k);
      Neighbours(m0.links, head, s, k + 1);
    }
  }

  /** The links around position `n` of the list. */
  ghost predicate LinksAt(links: Links<Addr>, head: Addr, s: seq<Addr>, n: nat)
    requires n <= |s|
  {
    var here, next := At(head, s, n), At(head, s, n + 1);
    && here in links.f && links.f[here] == next && next in links.b && links.b[next] == here
    && (n > 0 ==> here != head) && (next == head <==> n == |s|)
  }

  lemma MicroGetLinks(op: Op, r: Regs, m: Mem, m0: Mem, head: Addr, s: seq<Addr>)
    requires op.GetElement? && Point(op, r, m, m0, head, s) && !r.done
    requires LinksAt(m0.links, head, s, |r.visited|)
    requires |r.visited| > 0 ==> LinksAt(m0.links, head, s, |r.visited| - 1)
    ensures var (r', m') := Micro(op, head, r, m); Point(op, r', m', m0, head, s) && (!op.removal ==> m' == m)
  {
    var n := |r.visited|;
    if n < |s| {
      assert s[..n + 1] == s[..n] + [s[n]];
    }
  }

  lemma MicroGet(op: Op, r: Regs, m: Mem, m0: Mem, head: Addr, s: seq<Addr>)
    requires op.GetElement?
    requires SoundMem(m0, head, s) && Point(op, r, m, m0, head, s) && !r.done
    ensures var (r', m') := Micro(op, head, r, m); Point(op, r', m', m0, head, s) && (!op.removal ==> m' == m)
  {
    var n := |r.visited|;
    Neighbours(m0.links, head, s, n);
    if n > 0 {
      Neighbours(m0.links, head, s, n - 1);
    }
    MicroGetLinks(op, r, m, m0, head, s);
  }

  lemma MicroRemove(op: Op, r: Regs, m: Mem, m0: Mem, head: Addr, s: seq<Addr>)
    requires op.RemoveElement?
    requires SoundMem(m0, head, s) && Point(op, r, m, m0, head, s) && !r.done
    ensures var (r', m') := Micro(op, head, r, m); Point(op, r', m', m0, head, s)
  {
    MemberExact(m0.links, head, s, op.e);
  }

  /** Every statement leads from point to point, and a search without removal writes nothing. */
  lemma MicroKeeps(op: Op, r: Regs, m: Mem, m0: Mem, head: Addr, s: seq<Addr>)
    requires SoundMem(m0, head, s) && Pushable(op, head, s) && Point(op, r, m, m0, head, s) && !r.done
    ensures var (r', m') := Micro(op, head, r, m);
            Point(op, r', m', m0, head, s) && (ModeOf(op).Shared? ==> m' == m)
  {
    match op
    case PushHead(_) => MicroPush(op, r, m, m0, head, s);
    case PushTail(_) => MicroPush(op, r, m, m0, head, s);
    case PopHead => MicroPop(op, r, m, m0, head, s);
    case PopTail => MicroPop(op, r, m, m0, head, s);
    case GetElement(_, _) => MicroGet(op, r, m, m0, head, s);
    case RemoveElement(_) => MicroRemove(op, r, m, m0, head, s);
  }

  /** No statement makes a link NULL again. */
  lemma MicroKeys(op: Op, r: Regs, m: Mem, head: Addr, e: Addr)
    requires e in m.links.f
    ensures e in Micro(op, head, r, m).1.links.f
  {
  }

  lemma StartPoint(op: Op, m0: Mem, head: Addr, s: seq<Addr>)
    requires SoundMem(m0, head, s) && Removable(op, head, m0)
    ensures Point(op, START, m0, m0, head, s)
  {
    if op.RemoveElement? {
      MemberExact(m0.links, head, s, op.e);
    }
  }

  lemma DonePush(op: Op, r: Regs, m: Mem, m0: Mem, head: Addr, s: seq<Addr>)
    requires op.PushHead? || op.PushTail?
    requires SoundMem(m0, head, s) && Pushable(op, head, s) && Point(op, r, m, m0, head, s) && r.done
    ensures SoundMem(m, head, SeqOp(s, op).0) && r.result == SeqOp(s, op).1
  {
    WrapStep(|s|);
    var k := if op.PushHead? then 0 else |s|;
    InsertSound(m0.links, head, s, k, op.e);
    assert Insert(s, k, op.e) == SeqOp(s, op).0;
  }

  lemma DonePop(op: Op, r: Regs, m: Mem, m0: Mem, head: Addr, s: seq<Addr>)
    requires op.PopHead? || op.PopTail?
    requires SoundMem(m0, head, s) && Point(op, r, m, m0, head, s) && r.done
    ensures SoundMem(m, head, SeqOp(s, op).0) && r.result == SeqOp(s, op).1
  {
    if s != [] {
      var k := if op.PopHead? then 0 else |s| - 1;
      DropMem(m0, head, s, k);
      assert m == Mem(LinkOut(m0.links, At(head, s, k), At(head, s, k + 2)), Wrap(m0.count - 1));
      assert Drop(s, k) == SeqOp(s, op).0;
    }
  }

  lemma DoneGet(op: Op, r: Regs, m: Mem, m0: Mem, head: Addr, s: seq<Addr>)
    requires op.GetElement?
    requires SoundMem(m0, head, s) && Point(op, r, m, m0, head, s) && r.done
    ensures SoundMem(m, head, SeqOp(s, op).0) && r.result == SeqOp(s, op).1
    ensures r.visited == if r.result.None? then s else s[..FindFrom(s, op.callback, Wrap(|s|), 0) + 1]
  {
    var k := FindFrom(s, op.callback, Wrap(|s|), 0);
    if k < |s| {
      DropMem(m0, head, s, k);
    }
    DoneGetResult(op, r, m, m0, head, s);
    assert r.result.Some? ==> SeqOp(s, op) == (if op.removal then Drop(s, k) else s, r.result);
  }

  lemma DropMem(m0: Mem, head: Addr, s: seq<Addr>, k: nat)
    requires SoundMem(m0, head, s) && k < |s|
    ensures SoundMem(Mem(LinkOut(m0.links, At(head, s, k), At(head, s, k + 2)), Wrap(m0.count - 1)), head, Drop(s, k))
  {
    WrapStep(|s|);
    DropSound(m0.links, head, s, k);
  }

  /** A search ends at the first match, or at the end without one. */
  lemma DoneGetResult(op: Op, r: Regs, m: Mem, m0: Mem, head: Addr, s: seq<Addr>)
    requires op.GetElement? && m0.count == Wrap(|s|) && Point(op, r, m, m0, head, s) && r.done
    ensures var k, n := FindFrom(s, op.callback, Wrap(|s|), 0), |r.visited|;
            && (if r.result.None? then k == |s| == n && m == m0 else k == n - 1 && r.result == Some(s[k]))
            && r.visited == s[..n]
            && (r.result.Some? ==>
                  m == if op.removal then Mem(LinkOut(m0.links, At(head, s, k), At(head, s, k + 2)), Wrap(m0.count - 1))
                       else m0)
  {
  }

  lemma DoneRemove(op: Op, r: Regs, m: Mem, m0: Mem, head: Addr, s: seq<Addr>)
    requires op.RemoveElement?
    requires SoundMem(m0, head, s) && Point(op, r, m, m0, head, s) && r.done
    ensures SoundMem(m, head, SeqOp(s, op).0) && r.result == SeqOp(s, op).1
  {
    if op.e in s {
      WrapStep(|s|);
      RemoveFacts(m0.links, head, s, IndexOf(s, op.e));
    }
  }

  /** A finished routine has done what the operation does to the sequence. */
  lemma PointDone(op: Op, r: Regs, m: Mem, m0: Mem, head: Addr, s: seq<Addr>)
    requires SoundMem(m0, head, s) && Pushable(op, head, s) && Point(op, r, m, m0, head, s) && r.done
    ensures SoundMem(m, head, SeqOp(s, op).0) && r.result == SeqOp(s, op).1
  {
    if op.PushHead? || op.PushTail? {
      DonePush(op, r, m, m0, head, s);
    } else if op.PopHead? || op.PopTail? {
      DonePop(op, r, m, m0, head, s);
    } else if op.GetElement? {
      DoneGet(op, r, m, m0, head, s);
    } else {
      DoneRemove(op, r, m, m0, head, s);
    }
  }

  lemma SeqOpElements(s: seq<Addr>, op: Op, e: Addr)
    requires e in SeqOp(s, op).0
    ensures e in s || ((op.PushHead? || op.PushTail?) && e == op.e)
  {
  }

  // ---- every routine ends ----

  /** A bound on the statements that are left. */
  function Left(op: Op, r: Regs, length: nat): int {
    if r.done then 0
    else if !op.GetElement? then 9 - r.pc
    else
      match r.pc
      case 0 => 2 * length + 20
      case 1 => 2 * (length - |r.visited|) + 12
      case 9 => 2 * (length - |r.visited|) + 13
      case _ => 11 - r.pc
  }

  lemma MicroEnds(op: Op, r: Regs, m: Mem, m0: Mem, head: Addr, s: seq<Addr>)
    requires Point(op, r, m, m0, head, s) && !r.done
    ensures Left(op, r, |s|) > 0
    ensures var (r', m') := Micro(op, head, r, m);
            Point(op, r', m', m0, head, s) ==> 0 <= Left(op, r', |s|) < Left(op, r, |s|)
  {
  }
}
