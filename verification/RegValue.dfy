/** RegUtils.cpp, the REG_MULTI_SZ routines: a list of strings kept in one registry value. */
module RegValue {
  import opened Wrappers
  import opened MultiStringSpec
  import MultiString

  datatype Status = Success | Unsuccessful | OsError

  /** The answers of the registry to one call. The value is read twice, first for its size and then
      (`againOk`) into a new buffer, which otherwise keeps the cells `unfilled`. */
  datatype Io = Io(readOk: bool, againOk: bool, unfilled: seq<WChar>, writeOk: bool, openOk: bool)
  {
    function Buffer(cells: seq<WChar>): seq<WChar> {
      if againOk then cells else unfilled
    }
  }

  type Stored = Option<seq<WChar>>

  // ---- the routines on values ----

  /** CheckMultiString on the stored cells, with their own number as the limit. */
  ghost predicate Checks(cells: seq<WChar>) {
    exists i :: i + 2 <= |cells| && DoubleNulAt(cells, i)
  }

  lemma ChecksWellFormed(cells: seq<WChar>)
    requires Checks(cells)
    ensures WellFormed(cells) && Parsable(Strings(cells)) && Encode(Strings(cells)) <= cells
  {
    ParseLimitExact(cells, 0, |cells|);
    EncodeParse(cells, 0, |cells|);
    var ss := Parse(cells, 0, |cells|).calls;
    VisibleParsable(ss);
    ParseLayout(cells, 0, 0, ss);
    assert cells[0..] == cells;
  }

  lemma EncodeChecks(ss: seq<Str>)
    requires Parsable(ss)
    ensures Checks(Encode(ss))
  {
    var c := Encode(ss);
    ParseEncode(ss);
    ParseLimit(c, 0, |c|);
    ParseLimitExact(c, 0, |c|);
  }

  /** An add does not look at the outcome of its second read. */
  ghost function AddStored(fold: Fold, v: Stored, add: Str, where_: Where, io: Io): (Stored, Status) {
    if v.None? || !io.readOk then
      (if io.writeOk then (Some(Encode([add])), Success) else (v, OsError))
    else
      var cells := io.Buffer(v.value);
      if !Checks(cells) then (v, Unsuccessful)
      else
        ChecksWellFormed(cells);
        var d := OrEmpty(Without(fold, Strings(cells), add));
        if where_.After? && !HasMatch(fold, d, where_.s) then (v, Unsuccessful)
        else if !io.writeOk then (v, OsError)
        else (Some(Encode(Visible(Inserted(fold, d, add, where_)))), Success)
  }

  ghost function RemoveStored(fold: Fold, v: Stored, del: Str, deleteOnEmpty: bool, io: Io): (Stored, Status) {
    if v.None? || !io.readOk then (v, OsError)
    else if v.value == [] then (v, Unsuccessful)
    else if !io.againOk then (v, OsError)
    else if !Checks(v.value) then (v, Unsuccessful)
    else
      ChecksWellFormed(v.value);
      var ss := Strings(v.value);
      if !HasMatch(fold, ss, del) then (v, Unsuccessful)
      else if OrEmpty(Without(fold, ss, del)) == [[]] then
        if deleteOnEmpty then
          if !io.openOk then (v, Unsuccessful) else if !io.writeOk then (v, OsError) else (None, Success)
        else
          if !io.writeOk then (v, OsError) else (Some([0]), Success)
      else if !io.writeOk then (v, OsError)
      else (Some(Encode(Without(fold, ss, del))), Success)
  }

  // ---- the routines on the registry ----

  class Value {
    var data: Stored

    constructor ()
      ensures data == None
    {
      data := None;
    }

    /** RegSetValue */
    method Set(cells: seq<WChar>, io: Io) returns (status: Status)
      modifies this
      ensures if io.writeOk then data == Some(cells) && status == Success
              else data == old(data) && status == OsError
    {
      if io.writeOk {
        data := Some(cells);
        return Success;
      }
      return OsError;
    }

    method AddMultiStringToKey(fold: Fold, where_: Where, value: Str, io: Io) returns (status: Status)
      requires NoNul(value) && (where_.After? ==> NoNul(where_.s))
      requires data.Some? && io.readOk ==>
                 && |io.Buffer(data.value)| == |data.value| && |data.value| + |value| + 1 < MultiString.MAX_CELLS
                 && !Parse(io.Buffer(data.value), 0, |data.value|).OutOfBounds?
      modifies this
      ensures (data, status) == AddStored(fold, old(data), value, where_, io)
    {
      if data.None? || !io.readOk {
        CellsSingle(value);
        assert value + [0, 0] == Encode([value]);
        status := Set(value + [0, 0], io);
        return;
      }
      var cells := io.Buffer(data.value);
      var buffer := new WChar[|cells|](i requires 0 <= i < |cells| => cells[i]);
      assert buffer[..] == cells;
      var valid := MultiString.CheckMultiString(fold, buffer, |cells|);
      assert buffer[..] == cells;
      if !valid {
        return Unsuccessful;
      }
      ChecksWellFormed(cells);
      var added, copy := MultiString.CopyAddStringToMultiString(fold, buffer, value, where_);
      if !added {
        return Unsuccessful;
      }
      ghost var l := Inserted(fold, OrEmpty(Without(fold, Strings(cells), value)), value, where_);
      StoredLength(cells, fold, value, where_);
      var destLength := MultiString.GetMultiStringSize(fold, copy);
      status := Set(copy[..destLength], io);
    }

    method RemoveMultiStringFromKeyEx(fold: Fold, delString: Str, deleteOnEmpty: bool, io: Io)
      returns (status: Status)
      requires NoNul(delString)
      requires data.Some? && data.value != [] && io.readOk && io.againOk ==>
                 |data.value| < MultiString.MAX_CELLS && !Parse(data.value, 0, |data.value|).OutOfBounds?
      modifies this
      ensures (data, status) == RemoveStored(fold, old(data), delString, deleteOnEmpty, io)
    {
      if data.None? || !io.readOk {
        return OsError;
      }
      var cells := data.value;
      if |cells| == 0 {
        return Unsuccessful;
      }
      if !io.againOk {
        return OsError;
      }
      var buffer := new WChar[|cells|](i requires 0 <= i < |cells| => cells[i]);
      assert buffer[..] == cells;
      var valid := MultiString.CheckMultiString(fold, buffer, |cells|);
      assert buffer[..] == cells;
      if !valid {
        return Unsuccessful;
      }
      ChecksWellFormed(cells);
      var deleted, copy := MultiString.CopyDeleteStringFromMultiString(fold, buffer, Some(delString));
      if !deleted {
        return Unsuccessful;
      }
      ghost var kept := OrEmpty(Without(fold, Strings(cells), delString));
      assert Strings(copy[..]) == kept;
      EncodeParse(copy[..], 0, 0);
      var destLength := MultiString.GetMultiStringSize(fold, copy);
      EmptyBySize(kept);
      assert copy[0] == copy[..destLength][0];
      if destLength == 2 {
        if copy[0] == 0 {
          destLength := 1;
        }
      }
      if destLength == 1 {
        if deleteOnEmpty {
          if !io.openOk {
            return Unsuccessful;
          }
          if !io.writeOk {
            return OsError;
          }
          data := None;
          return Success;
        } else {
          assert copy[..1] == [0];
          status := Set(copy[..1], io);
        }
      } else {
        status := Set(copy[..destLength], io);
      }
    }
  }

  lemma StoredLength(cells: seq<WChar>, fold: Fold, add: Str, where_: Where)
    requires Checks(cells) && WellFormed(cells) && NoNul(add)
    requires var d := OrEmpty(Without(fold, Strings(cells), add)); where_.After? ==> HasMatch(fold, d, where_.s)
    ensures var d := OrEmpty(Without(fold, Strings(cells), add));
            |Encode(Inserted(fold, d, add, where_))| <= |cells| + |add| + 1
  {
    ChecksWellFormed(cells);
    MultiString.DeletedFits(fold, Strings(cells), Some(add));
    var d := OrEmpty(Without(fold, Strings(cells), add));
    CellsSingle([]);
    MultiString.AddedFits(fold, d, add, where_);
  }

  /** The size test recognises the empty list: two cells, the first one NUL. */
  lemma EmptyBySize(ss: seq<Str>)
    requires Parsable(ss)
    ensures |Encode(ss)| == 2 && Encode(ss)[0] == 0 <==> ss == [[]]
  {
    if ss == [[]] {
      CellsSingle([]);
    } else if ss[0] == [] {
      assert Encode(ss) == [0] + Encode(ss[1..]);
      assert Encode(ss[1..]) == ss[1] + [0] + Encode(ss[2..]);
    } else {
      assert Encode(ss)[0] == ss[0][0];
      assert ss[0][0] in ss[0];
    }
  }

  // ---- the list a reader has in mind ----

  datatype Op = Add(s: Str, where_: Where) | Remove(s: Str, deleteOnEmpty: bool)

  /** `Nul`: the value is the single NUL that a remove without delete-if-empty leaves. */
  datatype Model = Absent | Listed(strings: seq<Str>) | Nul

  /** An empty string behind a new first one hides all that follows. */
  predicate Hides(where_: Where, rest: seq<Str>) {
    where_.AtStart? && rest != [] && rest[0] == []
  }

  /** The string at its place among the others. At the end of nothing an empty string comes
      first. */
  function Placed(fold: Fold, rest: seq<Str>, add: Str, where_: Where): seq<Str> {
    if where_.AtEnd? && rest == [] then [[], add]
    else if Hides(where_, rest) then [add]
    else Inserted(fold, rest, add, where_)
  }

  /** The list an add works on; None when the buffer it has read is refused. */
  ghost function Seen(m: Model, io: Io): Option<seq<Str>> {
    if io.againOk then (if m.Listed? then Some(m.strings) else None)
    else if Checks(io.unfilled) then
      ChecksWellFormed(io.unfilled);
      Some(Strings(io.unfilled))
    else None
  }

  ghost function Abstract(fold: Fold, m: Model, op: Op, io: Io): Model {
    match op
    case Add(s, w) =>
      if m.Absent? || !io.readOk then (if io.writeOk then Listed([s]) else m)
      else if Seen(m, io).None? || !io.writeOk then m
      else
        var rest := Without(fold, Seen(m, io).value, s);
        if w.After? && !HasMatch(fold, rest, w.s) then m else Listed(Placed(fold, rest, s, w))
    case Remove(s, deleteOnEmpty) =>
      if !m.Listed? || !io.readOk || !io.againOk || !io.writeOk || !HasMatch(fold, m.strings, s) then m
      else
        var rest := Without(fold, m.strings, s);
        if OrEmpty(rest) != [[]] then Listed(rest)
        else if !deleteOnEmpty then Nul
        else if io.openOk then Absent else m
  }

  ghost function Concrete(fold: Fold, v: Stored, op: Op, io: Io): Stored {
    match op
    case Add(s, w) => AddStored(fold, v, s, w, io).0
    case Remove(s, deleteOnEmpty) => RemoveStored(fold, v, s, deleteOnEmpty, io).0
  }

  /** The stored value is the exact encoding of the list. */
  ghost predicate Refines(v: Stored, m: Model) {
    match m
    case Absent => v == None
    case Nul => v == Some([0])
    case Listed(ss) => v == Some(Encode(ss)) && Parsable(ss) && ss != [[]]
  }

  /** The strings of a call are real strings. */
  ghost predicate Proper(op: Op) {
    && NoNul(op.s) && op.s != []
    && (op.Add? && op.where_.After? ==> NoNul(op.where_.s) && op.where_.s != [])
  }

  lemma RefinesRead(v: Stored, ss: seq<Str>)
    requires Refines(v, Listed(ss))
    ensures Checks(v.value) && WellFormed(v.value) && Strings(v.value) == ss
  {
    EncodeChecks(ss);
    ParseEncode(ss);
  }

  lemma PlacedParsable(fold: Fold, rest: seq<Str>, add: Str, where_: Where)
    requires rest == [] || Parsable(rest)
    requires NoNul(add) && add != [] && (where_.After? ==> where_.s != [] && HasMatch(fold, rest, where_.s))
    ensures var l := Placed(fold, rest, add, where_); Parsable(l) && l != [[]]
  {
    var l := Placed(fold, rest, add, where_);
    match where_
    case AtStart =>
      assert l[0] == add;
    case AtEnd =>
      assert l[|l| - 1] == add;
    case After(s) =>
      var k := InsertAfterExact(fold, rest, s, add);
      assert l[k + 1] == add;
  }

  /** What a parse shows of an insertion, on any list that a parse can deliver. */
  lemma InsertedShows(fold: Fold, rest: seq<Str>, add: Str, where_: Where)
    requires rest == [] || Parsable(rest)
    requires NoNul(add) && add != [] && (where_.After? ==> where_.s != [] && HasMatch(fold, rest, where_.s))
    ensures Visible(Inserted(fold, OrEmpty(rest), add, where_)) == Placed(fold, rest, add, where_)
  {
    PlacedParsable(fold, rest, add, where_);
    VisibleParsable(Placed(fold, rest, add, where_));
    if where_.AtStart? && OrEmpty(rest)[0] == [] {
      var l := [add] + OrEmpty(rest);
      assert l[1] == [] && l[..1] == [add];
    }
  }

  lemma AddRefines(fold: Fold, v: Stored, m: Model, op: Op, io: Io)
    requires Refines(v, m) && Proper(op) && op.Add?
    ensures Refines(Concrete(fold, v, op, io), Abstract(fold, m, op, io))
  {
    if m.Listed? {
      RefinesRead(v, m.strings);
    }
    if m.Absent? || !io.readOk {
      CellsSingle(op.s);
    } else if Seen(m, io).Some? {
      var ss := Seen(m, io).value;
      ParsableSeen(v, m, io);
      var rest := Without(fold, ss, op.s);
      WithoutExact(fold, ss, op.s);
      if op.where_.After? ==> HasMatch(fold, rest, op.where_.s) {
        InsertedShows(fold, rest, op.s, op.where_);
        PlacedParsable(fold, rest, op.s, op.where_);
      }
    }
  }

  lemma ParsableSeen(v: Stored, m: Model, io: Io)
    requires Refines(v, m) && v.Some? && Seen(m, io).Some?
    ensures Checks(io.Buffer(v.value)) && WellFormed(io.Buffer(v.value))
    ensures Strings(io.Buffer(v.value)) == Seen(m, io).value && Parsable(Seen(m, io).value)
  {
    if io.againOk {
      RefinesRead(v, m.strings);
    } else {
      ChecksWellFormed(io.unfilled);
    }
  }

  lemma RemoveRefines(fold: Fold, v: Stored, m: Model, op: Op, io: Io)
    requires Refines(v, m) && op.Remove?
    ensures Refines(Concrete(fold, v, op, io), Abstract(fold, m, op, io))
  {
    if m.Listed? {
      RefinesRead(v, m.strings);
      WithoutExact(fold, m.strings, op.s);
    }
  }

  /** One call, whatever the registry answers, does to the stored value what it does to the list. */
  lemma StepRefines(fold: Fold, v: Stored, m: Model, op: Op, io: Io)
    requires Refines(v, m) && Proper(op)
    ensures Refines(Concrete(fold, v, op, io), Abstract(fold, m, op, io))
  {
    if op.Add? {
      AddRefines(fold, v, m, op, io);
    } else {
      RemoveRefines(fold, v, m, op, io);
    }
  }

  // ---- duplicates, and empty strings ----

  ghost predicate NoDuplicates(fold: Fold, ss: seq<Str>) {
    forall i, j | 0 <= i < j < |ss| :: !Match(fold, ss[i], ss[j])
  }

  lemma ConsNoDuplicates(fold: Fold, x: Str, ss: seq<Str>)
    requires NoDuplicates(fold, ss) && forall j | 0 <= j < |ss| :: !Match(fold, x, ss[j])
    ensures NoDuplicates(fold, [x] + ss)
  {
  }

  lemma {:induction false} WithoutNoDuplicates(fold: Fold, ss: seq<Str>, s: Str)
    requires NoDuplicates(fold, ss)
    ensures NoDuplicates(fold, Without(fold, ss, s))
  {
    if ss != [] {
      var rest := ss[1..];
      assert forall i, j | 0 <= i < j < |rest| :: rest[i] == ss[i + 1] && rest[j] == ss[j + 1];
      WithoutNoDuplicates(fold, rest, s);
      var r := Without(fold, rest, s);
      forall j | 0 <= j < |r| ensures !Match(fold, ss[0], r[j]) {
        WithoutExact(fold, rest, s);
        assert r[j] in rest;
      }
      ConsNoDuplicates(fold, ss[0], r);
    }
  }

  lemma InsertedAt(fold: Fold, ss: seq<Str>, add: Str, where_: Where) returns (k: nat)
    requires where_.After? ==> HasMatch(fold, ss, where_.s)
    ensures k <= |ss| && Inserted(fold, ss, add, where_) == ss[..k] + [add] + ss[k..]
    ensures match where_
            case AtStart => k == 0
            case AtEnd => k == |ss|
            case After(s) => k > 0 && Match(fold, ss[k - 1], s) && forall i | 0 <= i < k - 1 :: !Match(fold, ss[i], s)
  {
    match where_
    case AtStart =>
      k := 0;
    case AtEnd =>
      k := |ss|;
    case After(s) =>
      k := InsertAfterExact(fold, ss, s, add);
      k := k + 1;
  }

  lemma OthersKept(fold: Fold, ss: seq<Str>, add: Str, k: nat)
    requires k <= |ss| && !HasMatch(fold, ss, add)
    ensures var l := ss[..k] + [add] + ss[k..];
            && l[k] == add && l[..k] + l[k + 1..] == ss
            && (forall i | 0 <= i < |l| && i != k :: l[i] in ss && !Match(fold, l[i], add))
  {
    var l := ss[..k] + [add] + ss[k..];
    forall i | 0 <= i < |l| && i != k ensures l[i] in ss && !Match(fold, l[i], add) {
      assert l[i] == if i < k then ss[i] else ss[i - 1];
    }
  }

  /** Inserting into a list without a match adds the string once and keeps all others in order. */
  lemma InsertedOnce(fold: Fold, ss: seq<Str>, add: Str, where_: Where) returns (k: nat)
    requires !HasMatch(fold, ss, add) && (where_.After? ==> HasMatch(fold, ss, where_.s))
    ensures var l := Inserted(fold, ss, add, where_);
            && k < |l| && l[k] == add && l[..k] + l[k + 1..] == ss
            && (forall i | 0 <= i < |l| && i != k :: l[i] in ss && !Match(fold, l[i], add))
    ensures match where_
            case AtStart => k == 0
            case AtEnd => k == |ss|
            case After(s) => k > 0 && Match(fold, ss[k - 1], s) && forall i | 0 <= i < k - 1 :: !Match(fold, ss[i], s)
  {
    k := InsertedAt(fold, ss, add, where_);
    OthersKept(fold, ss, add, k);
  }

  lemma MatchSymmetric(fold: Fold, a: Str, b: Str)
    requires Match(fold, a, b)
    ensures Match(fold, b, a)
  {
  }

  lemma InsertedNoDuplicates(fold: Fold, ss: seq<Str>, add: Str, l: seq<Str>, k: nat)
    requires NoDuplicates(fold, ss) && !HasMatch(fold, ss, add)
    requires k < |l| && l[k] == add && l[..k] + l[k + 1..] == ss
    ensures NoDuplicates(fold, l)
  {
    forall i, j | 0 <= i < j < |l| ensures !Match(fold, l[i], l[j]) {
      var i', j' := if i < k then i else i - 1, if j < k then j else j - 1;
      assert i != k ==> l[i] == (l[..k] + l[k + 1..])[i'] == ss[i'];
      assert j != k ==> l[j] == (l[..k] + l[k + 1..])[j'] == ss[j'];
      if i == k && Match(fold, l[i], l[j]) {
        MatchSymmetric(fold, l[i], l[j]);
      }
    }
  }

  ghost predicate Unique(fold: Fold, m: Model) {
    m.Listed? ==> NoDuplicates(fold, m.strings)
  }

  lemma PlacedUnique(fold: Fold, rest: seq<Str>, add: Str, where_: Where)
    requires NoDuplicates(fold, rest) && !HasMatch(fold, rest, add) && add != []
    requires where_.After? ==> HasMatch(fold, rest, where_.s)
    ensures NoDuplicates(fold, Placed(fold, rest, add, where_))
  {
    if (where_.AtEnd? ==> rest != []) && !Hides(where_, rest) {
      var k := InsertedOnce(fold, rest, add, where_);
      InsertedNoDuplicates(fold, rest, add, Inserted(fold, rest, add, where_), k);
      assert Placed(fold, rest, add, where_) == Inserted(fold, rest, add, where_);
    }
  }

  lemma Beside(ss: seq<Str>, add: Str, k: nat, i: nat)
    requires k <= |ss| && i < |ss|
    ensures (ss[..k] + [add] + ss[k..])[if i < k then i else i + 1] == ss[i]
  {
  }

  /** What stands beside the new string has no duplicates when the whole list has none. */
  lemma OthersUnique(fold: Fold, rest: seq<Str>, add: Str, where_: Where)
    requires NoDuplicates(fold, Inserted(fold, rest, add, where_))
    requires where_.After? ==> HasMatch(fold, rest, where_.s)
    ensures NoDuplicates(fold, rest)
  {
    var k := InsertedAt(fold, rest, add, where_);
    var l := rest[..k] + [add] + rest[k..];
    forall i, j | 0 <= i < j < |rest| ensures !Match(fold, rest[i], rest[j]) {
      Beside(rest, add, k, i);
      Beside(rest, add, k, j);
    }
  }

  /** The add replaces the list by one that it found, with its duplicates, in a buffer that was not
      filled. */
  ghost predicate BringsDuplicates(fold: Fold, m: Model, op: Op, io: Io) {
    && op.Add? && !m.Absent? && io.readOk && io.writeOk && !io.againOk && Checks(io.unfilled)
    && (ChecksWellFormed(io.unfilled);
        var rest := Without(fold, Strings(io.unfilled), op.s);
        && (op.where_.After? ==> HasMatch(fold, rest, op.where_.s))
        && !Hides(op.where_, rest)
        && !NoDuplicates(fold, rest))
  }

  /** A call on a list without duplicates leaves one exactly when it does not take over the
      duplicates of a buffer that was not filled. */
  lemma StepUniqueExactly(fold: Fold, m: Model, op: Op, io: Io)
    requires Unique(fold, m) && Proper(op)
    ensures Unique(fold, Abstract(fold, m, op, io)) <==> !BringsDuplicates(fold, m, op, io)
  {
    if op.Add? && !m.Absent? && io.readOk && io.writeOk && Seen(m, io).Some? {
      AddUniqueExactly(fold, Seen(m, io).value, op.s, op.where_);
      if io.againOk {
        WithoutNoDuplicates(fold, m.strings, op.s);
      }
    } else if op.Remove? && m.Listed? {
      WithoutNoDuplicates(fold, m.strings, op.s);
    }
  }

  lemma AddUniqueExactly(fold: Fold, seen: seq<Str>, add: Str, where_: Where)
    requires add != []
    ensures var rest := Without(fold, seen, add);
            (where_.After? ==> HasMatch(fold, rest, where_.s)) ==>
              (NoDuplicates(fold, Placed(fold, rest, add, where_))
               <==> Hides(where_, rest) || NoDuplicates(fold, rest))
  {
    var rest := Without(fold, seen, add);
    WithoutExact(fold, seen, add);
    if where_.After? ==> HasMatch(fold, rest, where_.s) {
      if NoDuplicates(fold, rest) {
        PlacedUnique(fold, rest, add, where_);
      }
      if NoDuplicates(fold, Inserted(fold, rest, add, where_)) {
        OthersUnique(fold, rest, add, where_);
      }
    }
  }

  ghost predicate NoEmptyString(m: Model) {
    m.Listed? ==> forall i | 0 <= i < |m.strings| :: m.strings[i] != []
  }

  /** An add works on a filled buffer, and an add at the end has another string before it. */
  ghost predicate Tame(fold: Fold, m: Model, op: Op, io: Io) {
    && io.againOk
    && (op.Add? && op.where_.AtEnd? && m.Listed? ==> Without(fold, m.strings, op.s) != [])
  }

  lemma PlacedNonEmpty(fold: Fold, rest: seq<Str>, add: Str, where_: Where)
    requires NoEmptyString(Listed(rest)) && !HasMatch(fold, rest, add) && add != []
    requires (where_.After? ==> HasMatch(fold, rest, where_.s)) && (where_.AtEnd? ==> rest != [])
    ensures NoEmptyString(Listed(Placed(fold, rest, add, where_)))
  {
    var k := InsertedOnce(fold, rest, add, where_);
  }

  lemma WithoutNonEmpty(fold: Fold, ss: seq<Str>, s: Str)
    requires NoEmptyString(Listed(ss))
    ensures NoEmptyString(Listed(Without(fold, ss, s))) && !HasMatch(fold, Without(fold, ss, s), s)
  {
    WithoutExact(fold, ss, s);
    var rest := Without(fold, ss, s);
    forall i | 0 <= i < |rest| ensures rest[i] != [] {
      assert rest[i] in ss;
    }
  }

  lemma StepKeepsNonEmpty(fold: Fold, m: Model, op: Op, io: Io)
    requires NoEmptyString(m) && Proper(op) && Tame(fold, m, op, io)
    ensures NoEmptyString(Abstract(fold, m, op, io))
  {
    if m.Listed? {
      var rest := Without(fold, m.strings, op.s);
      WithoutNonEmpty(fold, m.strings, op.s);
      if op.Add? && (op.where_.After? ==> HasMatch(fold, rest, op.where_.s)) {
        PlacedNonEmpty(fold, rest, op.s, op.where_);
      }
    }
  }

  // ---- histories ----

  type Call = (Op, Io)

  ghost function RunConcrete(fold: Fold, v: Stored, calls: seq<Call>): Stored
    decreases |calls|
  {
    if calls == [] then v else RunConcrete(fold, Concrete(fold, v, calls[0].0, calls[0].1), calls[1..])
  }

  ghost function RunAbstract(fold: Fold, m: Model, calls: seq<Call>): Model
    decreases |calls|
  {
    if calls == [] then m else RunAbstract(fold, Abstract(fold, m, calls[0].0, calls[0].1), calls[1..])
  }

  ghost predicate AllProper(calls: seq<Call>) {
    forall i | 0 <= i < |calls| :: Proper(calls[i].0)
  }

  ghost predicate AllFilled(calls: seq<Call>) {
    forall i | 0 <= i < |calls| :: calls[i].1.againOk
  }

  ghost predicate AllTame(fold: Fold, m: Model, calls: seq<Call>)
    decreases |calls|
  {
    calls == []
    || (&& Tame(fold, m, calls[0].0, calls[0].1)
        && AllTame(fold, Abstract(fold, m, calls[0].0, calls[0].1), calls[1..]))
  }

  lemma {:induction false} HistoryRefines(fold: Fold, v: Stored, m: Model, calls: seq<Call>)
    requires Refines(v, m) && AllProper(calls)
    ensures Refines(RunConcrete(fold, v, calls), RunAbstract(fold, m, calls))
    decreases |calls|
  {
    if calls != [] {
      var (op, io) := calls[0];
      StepRefines(fold, v, m, op, io);
      HistoryRefines(fold, Concrete(fold, v, op, io), Abstract(fold, m, op, io), calls[1..]);
    }
  }

  /** No list on the way holds a string twice. */
  ghost predicate EveryUnique(fold: Fold, m: Model, calls: seq<Call>)
    decreases |calls|
  {
    Unique(fold, m) && (calls == [] || EveryUnique(fold, Abstract(fold, m, calls[0].0, calls[0].1), calls[1..]))
  }

  ghost predicate NoneBringsDuplicates(fold: Fold, m: Model, calls: seq<Call>)
    decreases |calls|
  {
    calls == []
    || (&& !BringsDuplicates(fold, m, calls[0].0, calls[0].1)
        && NoneBringsDuplicates(fold, Abstract(fold, m, calls[0].0, calls[0].1), calls[1..]))
  }

  lemma {:induction false} HistoryUniqueExactly(fold: Fold, m: Model, calls: seq<Call>)
    requires Unique(fold, m) && AllProper(calls)
    ensures EveryUnique(fold, m, calls) <==> NoneBringsDuplicates(fold, m, calls)
    ensures EveryUnique(fold, m, calls) ==> Unique(fold, RunAbstract(fold, m, calls))
    decreases |calls|
  {
    if calls != [] {
      var next := Abstract(fold, m, calls[0].0, calls[0].1);
      StepUniqueExactly(fold, m, calls[0].0, calls[0].1);
      if Unique(fold, next) {
        HistoryUniqueExactly(fold, next, calls[1..]);
      }
    }
  }

  /** In particular when every second read succeeds. */
  lemma {:induction false} FilledBringsNone(fold: Fold, m: Model, calls: seq<Call>)
    requires AllFilled(calls)
    ensures NoneBringsDuplicates(fold, m, calls)
    decreases |calls|
  {
    if calls != [] {
      FilledBringsNone(fold, Abstract(fold, m, calls[0].0, calls[0].1), calls[1..]);
    }
  }

  lemma {:induction false} HistoryNonEmpty(fold: Fold, m: Model, calls: seq<Call>)
    requires NoEmptyString(m) && AllProper(calls) && AllTame(fold, m, calls)
    ensures NoEmptyString(RunAbstract(fold, m, calls))
    decreases |calls|
  {
    if calls != [] {
      StepKeepsNonEmpty(fold, m, calls[0].0, calls[0].1);
      HistoryNonEmpty(fold, Abstract(fold, m, calls[0].0, calls[0].1), calls[1..]);
    }
  }

  /** After any history from an absent value, with any answers of the registry, the value is absent,
      a single NUL, or the exact encoding of the abstract list, which the length check accepts. The
      list has no duplicates unless an add took them over from a buffer that was not filled, so none
      when every second read succeeded, and is canonical when moreover no add at the end met a list
      without another string. */
  lemma HistoryFromAbsent(fold: Fold, calls: seq<Call>)
    requires AllProper(calls)
    ensures var v, m := RunConcrete(fold, None, calls), RunAbstract(fold, Absent, calls);
            && (m.Absent? ==> v == None) && (m.Nul? ==> v == Some([0]))
            && (m.Listed? ==> && v == Some(Encode(m.strings)) && Parsable(m.strings)
                              && Checks(v.value) && WellFormed(v.value) && Strings(v.value) == m.strings)
            && (m.Listed? && NoneBringsDuplicates(fold, Absent, calls) ==> NoDuplicates(fold, m.strings))
            && (AllFilled(calls) ==> NoneBringsDuplicates(fold, Absent, calls))
            && (m.Listed? && AllTame(fold, Absent, calls) ==> Canonical(m.strings))
  {
    var v, m := RunConcrete(fold, None, calls), RunAbstract(fold, Absent, calls);
    HistoryRefines(fold, None, Absent, calls);
    if m.Listed? {
      RefinesRead(v, m.strings);
    }
    HistoryUniqueExactly(fold, Absent, calls);
    if AllFilled(calls) {
      FilledBringsNone(fold, Absent, calls);
    }
    if AllTame(fold, Absent, calls) {
      HistoryNonEmpty(fold, Absent, calls);
    }
  }

  // ---- where the code does not do what its comments say ----

  ghost predicate AllOk(io: Io) {
    io.readOk && io.againOk && io.writeOk && io.openOk
  }

  /** An add at the end leaves a canonical list exactly when a real string remains before it;
      otherwise the result is an empty string followed by the added one. */
  lemma AddAtEndExact(fold: Fold, v: Stored, ss: seq<Str>, add: Str, io: Io)
    requires Refines(v, Listed(ss)) && NoNul(add) && add != [] && AllOk(io)
    ensures var rest := Without(fold, ss, add);
            var v' := AddStored(fold, v, add, AtEnd, io).0;
            && v' == Some(Encode(OrEmpty(rest) + [add]))
            && Checks(v'.value) && WellFormed(v'.value) && Strings(v'.value) == OrEmpty(rest) + [add]
            && (Canonical(Strings(v'.value)) <==> rest != [] && rest[0] != [])
  {
    var op, rest := Add(add, AtEnd), Without(fold, ss, add);
    StepRefines(fold, v, Listed(ss), op, io);
    assert Placed(fold, rest, add, AtEnd) == OrEmpty(rest) + [add];
    RefinesRead(Concrete(fold, v, op, io), OrEmpty(rest) + [add]);
  }

  /** An add whose second read fails does what it would do on the list that the buffer happens to
      hold, whatever list is stored. */
  lemma UnfilledIsUsed(fold: Fold, v: Stored, ss: seq<Str>, op: Op, io: Io, seen: seq<Str>)
    requires Refines(v, Listed(ss)) && Proper(op) && op.Add?
    requires io.readOk && io.writeOk && !io.againOk && Parsable(seen) && io.unfilled == Encode(seen)
    ensures var other := AddStored(fold, Some(Encode(seen)), op.s, op.where_, io.(againOk := true));
            AddStored(fold, v, op.s, op.where_, io) == if other.1 == Success then other else (v, other.1)
  {
    EncodeChecks(seen);
  }

  /** When the buffer is all zero, an add at the start drops every other string and reports success. */
  lemma ZeroBufferDropsList(fold: Fold, v: Stored, ss: seq<Str>, add: Str, io: Io)
    requires Refines(v, Listed(ss)) && NoNul(add) && add != []
    requires io.readOk && io.writeOk && !io.againOk && io.unfilled == seq(|v.value|, _ => 0)
    ensures AddStored(fold, v, add, AtStart, io) == (Some(Encode([add])), Success)
  {
    var zero := io.unfilled;
    EncodeTwo(ss);
    assert DoubleNulAt(zero, 0);
    assert Checks(zero);
    CellsSingle([]);
    assert Encode([[]]) <= zero && zero[0..] == zero;
    ParseLayout(zero, 0, 0, [[]]);
    assert Strings(zero) == [[]];
    assert Visible([add, []]) == [add];
  }

  lemma EncodeTwo(ss: seq<Str>)
    requires ss != []
    ensures |Encode(ss)| >= 2
  {
  }

  /** A successful add that has not worked on an unfilled buffer still holds every other string
      exactly when there is none, or when its first read succeeded and it did not put the string in
      front of an empty one. A first read that fails drops the list. */
  lemma AddKeepsExactly(fold: Fold, v: Stored, ss: seq<Str>, op: Op, io: Io)
    requires Refines(v, Listed(ss)) && Proper(op) && op.Add? && (io.readOk ==> io.againOk)
    requires AddStored(fold, v, op.s, op.where_, io).1 == Success
    ensures var rest, v' := Without(fold, ss, op.s), AddStored(fold, v, op.s, op.where_, io).0;
            && v'.Some? && WellFormed(v'.value)
            && ((forall x | x in rest :: x in Strings(v'.value))
                <==> rest == [] || (io.readOk && !Hides(op.where_, rest)))
  {
    var rest := Without(fold, ss, op.s);
    RefinesRead(v, ss);
    AddRefines(fold, v, Listed(ss), op, io);
    var l := if io.readOk then Placed(fold, rest, op.s, op.where_) else [op.s];
    assert Abstract(fold, Listed(ss), op, io) == Listed(l);
    RefinesRead(Some(Encode(l)), l);
    PlacedKeepsExactly(fold, ss, op.s, op.where_, io.readOk);
  }

  /** The same for any buffer, and for the strings that are not empty: they must stand in the buffer
      that the add works on, and the new string must not hide them. */
  lemma AddKeepsOnAnyBuffer(fold: Fold, v: Stored, ss: seq<Str>, op: Op, io: Io)
    requires Refines(v, Listed(ss)) && Proper(op) && op.Add?
    requires AddStored(fold, v, op.s, op.where_, io).1 == Success
    ensures io.readOk ==> WellFormed(io.Buffer(v.value))
    ensures var rest, v' := Without(fold, ss, op.s), AddStored(fold, v, op.s, op.where_, io).0;
            && v'.Some? && WellFormed(v'.value)
            && (Holds(Strings(v'.value), rest)
                <==> || Holds([], rest)
                     || (io.readOk && Holds(Strings(io.Buffer(v.value)), rest)
                         && !Hides(op.where_, Without(fold, Strings(io.Buffer(v.value)), op.s))))
  {
    RefinesRead(v, ss);
    AddRefines(fold, v, Listed(ss), op, io);
    if io.readOk {
      ParsableSeen(v, Listed(ss), io);
      PlacedHoldsExactly(fold, ss, Seen(Listed(ss), io).value, op.s, op.where_);
    }
    var l := Abstract(fold, Listed(ss), op, io).strings;
    RefinesRead(Some(Encode(l)), l);
    WithoutExact(fold, ss, op.s);
    assert Match(fold, op.s, op.s);
  }

  /** `l` has all strings of `rest` that are not empty. */
  ghost predicate Holds(l: seq<Str>, rest: seq<Str>) {
    forall x | x in rest && x != [] :: x in l
  }

  lemma PlacedHoldsExactly(fold: Fold, ss: seq<Str>, seen: seq<Str>, add: Str, where_: Where)
    requires where_.After? ==> HasMatch(fold, Without(fold, seen, add), where_.s)
    ensures var rest, found := Without(fold, ss, add), Without(fold, seen, add);
            Holds(Placed(fold, found, add, where_), rest)
            <==> Holds([], rest) || (Holds(seen, rest) && !Hides(where_, found))
  {
    var rest, found := Without(fold, ss, add), Without(fold, seen, add);
    WithoutExact(fold, ss, add);
    WithoutExact(fold, seen, add);
    assert Match(fold, add, add);
    var k := InsertedAt(fold, found, add, where_);
    var l := found[..k] + [add] + found[k..];
    assert found == found[..k] + found[k..];
    assert forall x | x in rest && x != [] :: x in l <==> x in seen;
  }

  lemma PlacedKeepsExactly(fold: Fold, ss: seq<Str>, add: Str, where_: Where, placed: bool)
    requires add != [] && (where_.After? && placed ==> HasMatch(fold, Without(fold, ss, add), where_.s))
    ensures var rest := Without(fold, ss, add);
            var l := if placed then Placed(fold, rest, add, where_) else [add];
            (forall x | x in rest :: x in l) <==> rest == [] || (placed && !Hides(where_, rest))
  {
    var rest := Without(fold, ss, add);
    WithoutExact(fold, ss, add);
    if rest != [] {
      if placed && !Hides(where_, rest) {
        var k := InsertedAt(fold, rest, add, where_);
      } else {
        assert rest[0] in rest && Match(fold, add, add);
      }
    }
  }

  /** Adding a string after itself fails and changes nothing: it is removed first. */
  lemma AddAfterItself(fold: Fold, v: Stored, ss: seq<Str>, add: Str, io: Io)
    requires Refines(v, Listed(ss)) && NoNul(add) && add != [] && AllOk(io)
    ensures AddStored(fold, v, add, After(add), io) == (v, Unsuccessful)
  {
    RefinesRead(v, ss);
    WithoutExact(fold, ss, add);
  }

  /** A remove without delete-if-empty leaves a value that the length check accepts exactly when a
      real string remains or the registry fails a call. Then the value is the encoding of the list
      without the string, or of the old list; otherwise it is one NUL. */
  lemma RemoveUsableExactly(fold: Fold, v: Stored, ss: seq<Str>, del: Str, io: Io)
    requires Refines(v, Listed(ss))
    ensures var rest, written := Without(fold, ss, del), io.readOk && io.againOk && io.writeOk;
            var v' := RemoveStored(fold, v, del, false, io).0;
            && v'.Some? && (Checks(v'.value) <==> OrEmpty(rest) != [[]] || !written)
            && (RemoveStored(fold, v, del, false, io).1 == Success <==> written && HasMatch(fold, ss, del))
            && (if Checks(v'.value) then Refines(v', Listed(if written then rest else ss)) else v' == Some([0]))
  {
    RefinesRead(v, ss);
    WithoutExact(fold, ss, del);
    var op := Remove(del, false);
    RemoveRefines(fold, v, Listed(ss), op, io);
    var rest := Without(fold, ss, del);
    assert !Checks([0]);
    if OrEmpty(rest) != [[]] {
      RefinesRead(Some(Encode(rest)), rest);
    }
  }

  /** Some string of the list folds to the same as `s`, and not to the same as `but`. */
  ghost predicate Contains(fold: Fold, ss: seq<Str>, s: Str, but: Option<Str>) {
    exists x | x in ss :: Folded(fold, x) == Folded(fold, s) && (but.Some? ==> Folded(fold, x) != Folded(fold, but.value))
  }

  lemma ContainsExact(fold: Fold, ss: seq<Str>, s: Str, add: Str)
    ensures HasMatch(fold, ss, s) <==> Contains(fold, ss, s, None)
    ensures HasMatch(fold, Without(fold, ss, add), s) <==> Contains(fold, ss, s, Some(add))
  {
    WithoutExact(fold, ss, add);
    var rest := Without(fold, ss, add);
    forall x ensures Match(fold, x, s) <==> Folded(fold, x) == Folded(fold, s) {
      MatchFolded(fold, x, s);
    }
    forall x ensures Match(fold, x, add) <==> Folded(fold, x) == Folded(fold, add) {
      MatchFolded(fold, x, add);
    }
    if i :| 0 <= i < |ss| && Match(fold, ss[i], s) {
      assert ss[i] in ss;
    }
    if x :| x in ss && Folded(fold, x) == Folded(fold, s) {
      var i :| 0 <= i < |ss| && ss[i] == x;
    }
    if i :| 0 <= i < |rest| && Match(fold, rest[i], s) {
      assert rest[i] in rest;
    }
    if x :| x in ss && Folded(fold, x) == Folded(fold, s) && Folded(fold, x) != Folded(fold, add) {
      assert x in rest;
      var i :| 0 <= i < |rest| && rest[i] == x;
    }
  }

  /** An add reports success exactly when it could write, and either has taken the value for absent or
      has found its predecessor in a buffer that passes the check; without success nothing changes. */
  lemma AddSucceedsExactly(fold: Fold, v: Stored, m: Model, op: Op, io: Io)
    requires Refines(v, m) && Proper(op) && op.Add?
    ensures var (v', status) := AddStored(fold, v, op.s, op.where_, io);
            && (status == Success
                <==> && io.writeOk
                     && (|| m.Absent? || !io.readOk
                         || (&& Seen(m, io).Some?
                             && (op.where_.After? ==> Contains(fold, Seen(m, io).value, op.where_.s, Some(op.s))))))
            && (status == OsError
                <==> && !io.writeOk
                     && (|| m.Absent? || !io.readOk
                         || (&& Seen(m, io).Some?
                             && (op.where_.After? ==> Contains(fold, Seen(m, io).value, op.where_.s, Some(op.s))))))
            && (status != Success ==> v' == v)
  {
    if !m.Absent? && io.readOk && Seen(m, io).Some? {
      ParsableSeen(v, m, io);
      if op.where_.After? {
        ContainsExact(fold, Seen(m, io).value, op.where_.s, op.s);
      }
    }
    if m.Listed? {
      RefinesRead(v, m.strings);
    }
    assert !Checks([0]);
  }

  /** A remove reports success exactly when it could read, found the string and could write, and, to
      delete an empty value, could open the key; without success nothing changes. */
  lemma RemoveSucceedsExactly(fold: Fold, v: Stored, m: Model, op: Op, io: Io)
    requires Refines(v, m) && Proper(op) && op.Remove?
    ensures var (v', status) := RemoveStored(fold, v, op.s, op.deleteOnEmpty, io);
            && (status == Success
                <==> && m.Listed? && io.readOk && io.againOk && io.writeOk && Contains(fold, m.strings, op.s, None)
                     && (op.deleteOnEmpty && NothingElse(fold, m.strings, op.s) ==> io.openOk))
            && (status == OsError
                <==> || m.Absent? || !io.readOk || !io.againOk
                     || (&& m.Listed? && Contains(fold, m.strings, op.s, None) && !io.writeOk
                         && (op.deleteOnEmpty && NothingElse(fold, m.strings, op.s) ==> io.openOk)))
            && (status != Success ==> v' == v)
            && (status == Success ==> (v' == None <==> op.deleteOnEmpty && NothingElse(fold, m.strings, op.s)))
  {
    assert !Checks([0]);
    if m.Listed? {
      RefinesRead(v, m.strings);
      ContainsExact(fold, m.strings, op.s, op.s);
      OnlyEmptyLeft(fold, m.strings, op.s);
    }
  }

  /** Every string of the list is empty or folds to the same as `s`. */
  ghost predicate NothingElse(fold: Fold, ss: seq<Str>, s: Str) {
    forall x | x in ss :: x == [] || Folded(fold, x) == Folded(fold, s)
  }

  lemma OnlyEmptyLeft(fold: Fold, ss: seq<Str>, s: Str)
    requires Parsable(ss)
    ensures OrEmpty(Without(fold, ss, s)) == [[]] <==> NothingElse(fold, ss, s)
  {
    WithoutExact(fold, ss, s);
    var rest := Without(fold, ss, s);
    forall x ensures Match(fold, x, s) <==> Folded(fold, x) == Folded(fold, s) {
      MatchFolded(fold, x, s);
    }
    assert forall x :: x in rest <==> x in ss && Folded(fold, x) != Folded(fold, s);
    if rest != [] {
      assert rest[0] in rest;
      if |rest| > 1 {
        assert rest[1] in rest && rest[1] != [];
      }
    }
  }

  /** A value of one NUL stays: every later call that can read it fails and changes nothing. */
  lemma NulIsStuck(fold: Fold, op: Op, io: Io)
    requires io.readOk && io.againOk
    ensures Concrete(fold, Some([0]), op, io) == Some([0])
    ensures op.Add? ==> AddStored(fold, Some([0]), op.s, op.where_, io).1 == Unsuccessful
    ensures op.Remove? ==> RemoveStored(fold, Some([0]), op.s, op.deleteOnEmpty, io).1 == Unsuccessful
  {
    assert !Checks([0]);
  }
}
