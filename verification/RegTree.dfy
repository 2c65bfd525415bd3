/** RegUtils.cpp, RegDeleteAllSubKeys and RegDeleteAllKeys: a recursive delete whose loop index is
  decremented in the loop.

  A key is a value: what the registry answers about it, and its sub keys in enumeration order. */
module RegTree {
  import opened Wrappers

  /** `opens`: ZwOpenKey succeeds. `deletes`: ZwDeleteKey succeeds once there are no sub keys. */
  datatype Key = Key(nameBytes: nat, opens: bool, deletes: bool, subKeys: seq<Key>)

  // KEY_BASIC_INFORMATION has 16 bytes before the name and is read into a buffer of 512 bytes.
  const NAME_OFFSET := 16
  const BUFFER_SIZE := 512

  const DEVREG_MAX_REGISTRY_KEY := 0xFFFF_FFFF

  type ULONG = n: int | 0 <= n < 0x1_0000_0000

  /** ZwEnumerateKey finds room for the name. */
  predicate Enumerates(k: Key) {
    NAME_OFFSET + k.nameBytes <= BUFFER_SIZE
  }

  // ---- what is left, and when the loop ends, on the structure of the tree ----

  /** The sub keys that remain, when the loop may pass over `room` more keys: it passes over a key
      that does not open and stops at the first one that cannot be enumerated. */
  function Leftover(ks: seq<Key>, room: nat): seq<Key> {
    if ks == [] then []
    else if room == 0 || !Enumerates(ks[0]) then ks
    else if !ks[0].opens then [ks[0]] + Leftover(ks[1..], room - 1)
    else Leftover(ks[1..], room)
  }

  /** Every key that the loop opens can be emptied and deleted. */
  predicate Deletable(ks: seq<Key>, room: nat)
    decreases ks, 0
  {
    ks == [] || room == 0
    || !Enumerates(ks[0])
    || (!ks[0].opens && Deletable(ks[1..], room - 1))
    || (ks[0].opens && ks[0].deletes && Empties(ks[0].subKeys) && Deletable(ks[1..], room))
  }

  /** A delete of the sub keys ends and leaves none. */
  predicate Empties(ks: seq<Key>)
    decreases ks, 1
  {
    Deletable(ks, DEVREG_MAX_REGISTRY_KEY) && Leftover(ks, DEVREG_MAX_REGISTRY_KEY) == []
  }

  /** A forest that disappears completely. */
  predicate Clears(ks: seq<Key>)
    decreases ks
  {
    forall k | k in ks :: Enumerates(k) && k.opens && k.deletes && Clears(k.subKeys)
  }

  lemma {:induction false} ClearsExact(ks: seq<Key>, room: nat)
    requires room > 0
    ensures Clears(ks) <==> Deletable(ks, room) && Leftover(ks, room) == []
    decreases ks
  {
    if ks != [] {
      assert ks == [ks[0]] + ks[1..];
      ClearsExact(ks[1..], room);
      ClearsExact(ks[0].subKeys, DEVREG_MAX_REGISTRY_KEY);
    }
  }

  function Unopened(ks: seq<Key>): seq<Key> {
    if ks == [] then []
    else if ks[0].opens then Unopened(ks[1..]) else [ks[0]] + Unopened(ks[1..])
  }

  /** When every name fits, every key that opens clears completely, and the loop does not reach its
      bound, exactly the direct sub keys that do not open remain, in order and with their own sub
      keys. */
  lemma {:induction false} LeftoverIsUnopened(ks: seq<Key>, room: nat)
    requires forall k | k in ks :: Enumerates(k) && (k.opens ==> k.deletes && Clears(k.subKeys))
    requires |Unopened(ks)| < room
    ensures Deletable(ks, room) && Leftover(ks, room) == Unopened(ks)
  {
    if ks != [] {
      LeftoverIsUnopened(ks[1..], if ks[0].opens then room else room - 1);
      ClearsExact(ks[0].subKeys, DEVREG_MAX_REGISTRY_KEY);
    }
  }

  lemma {:induction false} LeftoverStable(ks: seq<Key>, room: nat)
    ensures Deletable(Leftover(ks, room), room) && Leftover(Leftover(ks, room), room) == Leftover(ks, room)
    decreases |ks|
  {
    if ks != [] && room > 0 && Enumerates(ks[0]) {
      LeftoverStable(ks[1..], if ks[0].opens then room else room - 1);
    }
  }

  // ---- the routine ----

  function Size(ks: seq<Key>): nat
    decreases ks
  {
    if ks == [] then 0 else 1 + Size(ks[0].subKeys) + Size(ks[1..])
  }

  lemma {:induction false} SizeAppend(a: seq<Key>, b: seq<Key>)
    ensures Size(a + b) == Size(a) + Size(b)
    decreases |a|
  {
    if a == [] {
      assert a + b == b;
    } else {
      SizeAppend(a[1..], b);
      assert (a + b)[1..] == a[1..] + b;
    }
  }

  lemma SizeAt(ks: seq<Key>, i: nat)
    requires i < |ks|
    ensures Size(ks) == Size(ks[..i]) + 1 + Size(ks[i].subKeys) + Size(ks[i + 1..])
  {
    var rest := ks[i..];
    assert ks == ks[..i] + rest;
    SizeAppend(ks[..i], rest);
    assert rest[0] == ks[i] && rest[1..] == ks[i + 1..];
  }

  lemma SizeWithout(ks: seq<Key>, i: nat)
    requires i < |ks|
    ensures Size(ks[..i] + ks[i + 1..]) == Size(ks) - 1 - Size(ks[i].subKeys)
  {
    SizeAt(ks, i);
    SizeAppend(ks[..i], ks[i + 1..]);
  }

  /** `idxKey--` and `idxKey++` in 32 bits. */
  function Dec(i: ULONG): ULONG {
    if i == 0 then 0xFFFF_FFFF else i - 1
  }

  function Inc(i: ULONG): ULONG {
    if i == 0xFFFF_FFFF then 0 else i + 1
  }

  ghost predicate Passed(ks: seq<Key>, i: nat) {
    i <= |ks| && forall j | 0 <= j < i :: Enumerates(ks[j]) && !ks[j].opens
  }

  /** Decrementing first, below zero at index 0, and incrementing after visits the same index. */
  lemma DecInc(i: ULONG)
    ensures Inc(Dec(i)) == i
    ensures i < DEVREG_MAX_REGISTRY_KEY ==> Inc(i) == i + 1
  {
  }

  /** What the loop leaves when it goes on from index `i`. */
  function After(left: seq<Key>, i: ULONG): seq<Key>
    requires i <= |left|
  {
    left[..i] + Leftover(left[i..], DEVREG_MAX_REGISTRY_KEY - i)
  }

  /** The loop stands at index `i` of `left`: what is before it was passed over. */
  ghost predicate Stands(left: seq<Key>, i: ULONG) {
    Passed(left, i) && Deletable(left[i..], DEVREG_MAX_REGISTRY_KEY - i)
  }

  lemma StandsStart(ks: seq<Key>)
    requires Deletable(ks, DEVREG_MAX_REGISTRY_KEY)
    ensures Stands(ks, 0) && After(ks, 0) == Leftover(ks, DEVREG_MAX_REGISTRY_KEY)
  {
    assert ks[0..] == ks && ks[..0] == [];
  }

  lemma StandsEnd(left: seq<Key>, i: ULONG)
    requires i <= |left| && (i == DEVREG_MAX_REGISTRY_KEY || i == |left| || !Enumerates(left[i]))
    ensures After(left, i) == left
  {
    assert left == left[..i] + left[i..];
  }

  lemma StandsSkip(left: seq<Key>, i: ULONG)
    requires Stands(left, i) && i < |left| && i < DEVREG_MAX_REGISTRY_KEY && Enumerates(left[i]) && !left[i].opens
    ensures Stands(left, i + 1) && After(left, i + 1) == After(left, i)
  {
    assert left[i..][1..] == left[i + 1..];
    assert left[..i + 1] == left[..i] + [left[i]];
    assert After(left, i + 1) == left[..i + 1] + Leftover(left[i + 1..], DEVREG_MAX_REGISTRY_KEY - i - 1);
  }

  lemma StandsDelete(left: seq<Key>, i: ULONG)
    requires Stands(left, i) && i < |left| && i < DEVREG_MAX_REGISTRY_KEY && Enumerates(left[i]) && left[i].opens
    ensures left[i].deletes && Empties(left[i].subKeys)
    ensures var next := left[..i] + left[i + 1..];
            && Stands(next, i) && After(next, i) == After(left, i)
            && Size(next) < Size(left) && Size(left[i].subKeys) < Size(left)
  {
    SizeAt(left, i);
    SizeWithout(left, i);
    var next := left[..i] + left[i + 1..];
    assert left[i..][1..] == left[i + 1..];
    assert next[..i] == left[..i] && next[i..] == left[i + 1..];
  }

  /** ZwDeleteKey on sub key `i`, of which `inner` remain: it goes only when nothing remains. */
  function DeleteKey(left: seq<Key>, i: nat, inner: seq<Key>): seq<Key>
    requires i < |left|
  {
    if inner == [] && left[i].deletes then left[..i] + left[i + 1..]
    else left[i := left[i].(subKeys := inner)]
  }

  method RegDeleteAllSubKeys(subKeys: seq<Key>) returns (left: seq<Key>)
    requires Deletable(subKeys, DEVREG_MAX_REGISTRY_KEY)
    ensures left == Leftover(subKeys, DEVREG_MAX_REGISTRY_KEY)
    decreases Size(subKeys)
  {
    left := subKeys;
    var idxKey: ULONG := 0;
    StandsStart(subKeys);
    ghost var result := Leftover(subKeys, DEVREG_MAX_REGISTRY_KEY);
    while idxKey < DEVREG_MAX_REGISTRY_KEY
      invariant Stands(left, idxKey) && After(left, idxKey) == result
      invariant Size(left) <= Size(subKeys)
      decreases Size(left), |left| - idxKey
    {
      if idxKey == |left| {
        StandsEnd(left, idxKey);
        return;                                  // STATUS_NO_MORE_ENTRIES
      }
      var key := left[idxKey];
      if !Enumerates(key) {
        StandsEnd(left, idxKey);
        return;                                  // STATUS_BUFFER_OVERFLOW
      }
      DecInc(idxKey);
      if !key.opens {
        StandsSkip(left, idxKey);
        idxKey := Inc(idxKey);
        continue;
      }
      StandsDelete(left, idxKey);
      ghost var next := left[..idxKey] + left[idxKey + 1..];
      var inner := RegDeleteAllSubKeys(key.subKeys);
      left := DeleteKey(left, idxKey, inner);
      assert left == next;
      idxKey := Dec(idxKey);
      idxKey := Inc(idxKey);
    }
    StandsEnd(left, idxKey);
  }

  /** RegDeleteAllKeys: None when the parent itself is gone. */
  method RegDeleteAllKeys(parent: Key) returns (left: Option<Key>, ok: bool)
    requires Deletable(parent.subKeys, DEVREG_MAX_REGISTRY_KEY)
    ensures ok <==> left.None?
    ensures ok <==> parent.deletes && Clears(parent.subKeys)
    ensures !ok ==> left.value == parent.(subKeys := Leftover(parent.subKeys, DEVREG_MAX_REGISTRY_KEY))
  {
    var inner := RegDeleteAllSubKeys(parent.subKeys);
    ClearsExact(parent.subKeys, DEVREG_MAX_REGISTRY_KEY);
    if inner == [] && parent.deletes {
      return None, true;
    }
    return Some(parent.(subKeys := inner)), false;
  }

  // ---- exactly when it ends ----

  /** The loop from index `i`, whatever the tree is like, cut off after `fuel` turns or nested calls;
      None: not finished. */
  function Loop(fuel: nat, ks: seq<Key>, i: ULONG): Option<seq<Key>>
    requires i <= |ks|
    decreases fuel
  {
    DecInc(i);
    if fuel == 0 then None
    else if i == DEVREG_MAX_REGISTRY_KEY || i == |ks| || !Enumerates(ks[i]) then Some(ks)
    else if !ks[i].opens then Loop(fuel - 1, ks, Inc(i))
    else
      match Loop(fuel - 1, ks[i].subKeys, 0)
      case None => None
      case Some(inner) =>
        Loop(fuel - 1, DeleteKey(ks, i, inner), Inc(Dec(i)))
  }

  /** A turn that opens and deletes a key. */
  lemma DeletingTurn(fuel: nat, ks: seq<Key>, i: ULONG)
    requires fuel > 0 && i < |ks| && i < DEVREG_MAX_REGISTRY_KEY && Enumerates(ks[i]) && ks[i].opens
    requires ks[i].deletes && Loop(fuel - 1, ks[i].subKeys, 0) == Some([])
    ensures Loop(fuel, ks, i) == Loop(fuel - 1, ks[..i] + ks[i + 1..], i)
  {
    DecInc(i);
  }

  lemma SkippingTurn(fuel: nat, ks: seq<Key>, i: ULONG)
    requires fuel > 0 && i < |ks| && i < DEVREG_MAX_REGISTRY_KEY && Enumerates(ks[i]) && !ks[i].opens
    ensures Loop(fuel, ks, i) == Loop(fuel - 1, ks, i + 1)
  {
    DecInc(i);
  }

  lemma LastTurn(fuel: nat, ks: seq<Key>, i: ULONG)
    requires fuel > 0 && i <= |ks| && (i == DEVREG_MAX_REGISTRY_KEY || i == |ks| || !Enumerates(ks[i]))
    ensures Loop(fuel, ks, i) == Some(After(ks, i))
  {
    StandsEnd(ks, i);
  }

  /** Enough fuel for a deletable forest. */
  lemma {:induction false} LoopEnds(ks: seq<Key>, i: ULONG, fuel: nat)
    requires Stands(ks, i) && fuel > 2 * Size(ks) - i && 2 * Size(ks) >= i
    ensures Loop(fuel, ks, i) == Some(After(ks, i))
    decreases fuel
  {
    if i == DEVREG_MAX_REGISTRY_KEY || i == |ks| || !Enumerates(ks[i]) {
      LastTurn(fuel, ks, i);
    } else if !ks[i].opens {
      LoopSizes(ks, i);
      StandsSkip(ks, i);
      SkippingTurn(fuel, ks, i);
      LoopEnds(ks, i + 1, fuel - 1);
    } else {
      LoopSizes(ks, i);
      StandsDelete(ks, i);
      StandsStart(ks[i].subKeys);
      LoopEnds(ks[i].subKeys, 0, fuel - 1);
      DeletingTurn(fuel, ks, i);
      LoopEnds(ks[..i] + ks[i + 1..], i, fuel - 1);
    }
  }

  lemma LoopSizes(ks: seq<Key>, i: nat)
    requires i < |ks|
    ensures Size(ks[..i] + ks[i + 1..]) < Size(ks) && 2 * Size(ks[..i] + ks[i + 1..]) >= i
    ensures i < Size(ks) && 2 * Size(ks[i].subKeys) < 2 * Size(ks) - i
  {
    SizeAt(ks, i);
    SizeWithout(ks, i);
    SizeLength(ks[..i]);
  }

  lemma {:induction false} SizeLength(ks: seq<Key>)
    ensures |ks| <= Size(ks)
    decreases |ks|
  {
    if ks != [] {
      SizeLength(ks[1..]);
    }
  }

  /** Whatever the loop returns is the leftover, and it returns only for a deletable forest. */
  lemma {:induction false} LoopSound(fuel: nat, ks: seq<Key>, i: ULONG)
    requires Passed(ks, i) && Loop(fuel, ks, i).Some?
    ensures Stands(ks, i) && Loop(fuel, ks, i).value == After(ks, i)
    decreases fuel
  {
    DecInc(i);
    if i == DEVREG_MAX_REGISTRY_KEY || i == |ks| || !Enumerates(ks[i]) {
      StandsEnd(ks, i);
    } else if !ks[i].opens {
      LoopSound(fuel - 1, ks, i + 1);
      SkipStands(ks, i);
    } else {
      var k := ks[i];
      LoopSound(fuel - 1, k.subKeys, 0);
      assert k.subKeys[0..] == k.subKeys && k.subKeys[..0] == [];
      var inner := Loop(fuel - 1, k.subKeys, 0).value;
      if inner == [] && k.deletes {
        LoopSound(fuel - 1, ks[..i] + ks[i + 1..], i);
        DeleteStands(ks, i);
      } else {
        LoopSound(fuel - 1, ks[i := k.(subKeys := inner)], i);
        StuckNeverStands(ks, i, inner);
      }
    }
  }

  /** The converse of StandsSkip. */
  lemma SkipStands(left: seq<Key>, i: ULONG)
    requires i < |left| && i < DEVREG_MAX_REGISTRY_KEY && Enumerates(left[i]) && !left[i].opens
    requires Stands(left, i + 1)
    ensures Stands(left, i) && After(left, i) == After(left, i + 1)
  {
    assert left[i..][1..] == left[i + 1..];
    assert left[..i + 1] == left[..i] + [left[i]];
  }

  /** The converse of StandsDelete. */
  lemma DeleteStands(left: seq<Key>, i: ULONG)
    requires i < |left| && i < DEVREG_MAX_REGISTRY_KEY && Enumerates(left[i]) && left[i].opens
    requires left[i].deletes && Empties(left[i].subKeys) && Stands(left[..i] + left[i + 1..], i)
    ensures Stands(left, i) && After(left, i) == After(left[..i] + left[i + 1..], i)
  {
    var next := left[..i] + left[i + 1..];
    assert left[i..][1..] == left[i + 1..];
    assert next[..i] == left[..i] && next[i..] == left[i + 1..];
    assert forall j | 0 <= j < i :: left[j] == next[j];
  }

  /** A key that was opened and is still there is opened again, and the loop cannot get past it. */
  lemma StuckNeverStands(left: seq<Key>, i: ULONG, inner: seq<Key>)
    requires i < |left| && i < DEVREG_MAX_REGISTRY_KEY && Enumerates(left[i]) && left[i].opens
    requires inner == Leftover(left[i].subKeys, DEVREG_MAX_REGISTRY_KEY) && !(inner == [] && left[i].deletes)
    ensures !Stands(left[i := left[i].(subKeys := inner)], i)
  {
    var next := left[i := left[i].(subKeys := inner)];
    LeftoverStable(left[i].subKeys, DEVREG_MAX_REGISTRY_KEY);
    var rest, room := next[i..], DEVREG_MAX_REGISTRY_KEY - i;
    assert rest != [] && rest[0] == next[i] && next[i].subKeys == inner && next[i].deletes == left[i].deletes;
    assert next[i].opens && Enumerates(next[i]);
    assert !(next[i].deletes && Empties(inner));
    assert !Deletable(rest, room);
  }

  /** The delete ends exactly on the deletable forests, and then leaves exactly the leftover. */
  lemma EndsExactly(ks: seq<Key>)
    ensures (exists fuel :: Loop(fuel, ks, 0).Some?) <==> Deletable(ks, 0xFFFF_FFFF)
    ensures forall fuel | Loop(fuel, ks, 0).Some? :: Loop(fuel, ks, 0).value == Leftover(ks, 0xFFFF_FFFF)
  {
    assert ks[0..] == ks && ks[..0] == [];
    forall fuel: nat | Loop(fuel, ks, 0).Some?
      ensures Stands(ks, 0) && Loop(fuel, ks, 0).value == Leftover(ks, DEVREG_MAX_REGISTRY_KEY) {
      LoopSound(fuel, ks, 0);
    }
    if Deletable(ks, DEVREG_MAX_REGISTRY_KEY) {
      StandsStart(ks);
      LoopEnds(ks, 0, 2 * Size(ks) + 1);
    }
  }

  /** One key that opens but does not delete keeps the loop busy for ever: the index is decremented
      although nothing was deleted. */
  lemma RefusedDeleteNeverEnds(nameBytes: nat)
    requires nameBytes <= 496
    ensures forall fuel :: Loop(fuel, [Key(nameBytes, true, false, [])], 0).None?
  {
    EndsExactly([Key(nameBytes, true, false, [])]);
  }

  /** So does a sub key two levels down that does not open. */
  lemma NestedUnopenedNeverEnds(nameBytes: nat)
    requires nameBytes <= 496
    ensures var inner := Key(nameBytes, false, true, []);
            forall fuel :: Loop(fuel, [Key(nameBytes, true, true, [inner])], 0).None?
  {
    var inner := Key(nameBytes, false, true, []);
    assert Leftover([inner], DEVREG_MAX_REGISTRY_KEY) == [inner] + Leftover([], DEVREG_MAX_REGISTRY_KEY - 1);
    EndsExactly([Key(nameBytes, true, true, [inner])]);
  }

  /** A name of more than 496 bytes ends the loop at once; it and everything behind it stay, and
      the routine still reports success. */
  lemma LongNameStops(nameBytes: nat, rest: seq<Key>)
    requires nameBytes > 496
    ensures var ks := [Key(nameBytes, true, true, [])] + rest;
            Deletable(ks, DEVREG_MAX_REGISTRY_KEY) && Leftover(ks, DEVREG_MAX_REGISTRY_KEY) == ks
  {
  }
}
