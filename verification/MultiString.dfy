/** MultiStringUtils.cpp: the parse loop, its callbacks, and the copies that delete or insert a string.

  The callbacks reach the loop as a function pointer with an untyped context. Here they are the
  constructors of `CallBack`, and `CallBackData` joins the fields of their context structs with what a
  callback from outside has been given. */
module MultiString {
  import opened Wrappers
  import opened MultiStringSpec

  type UINT = n: int | 0 <= n < 0x1_0000_0000

  // Cell counts are turned into byte counts in 32 bits (`TmpSize * 2`).
  const MAX_CELLS := 0x8000_0000

  datatype CallBack =
    | NullCallBack
    | GetMultiStringSizeCallBack
    | DeleteStringCallBack(delString: Option<Str>)
    | AddStringCallBack(after: Option<Str>, addString: Str)
    // A callback from outside: its answer depends on all the strings it has been given.
    | UserCallBack(accepts: seq<Str> -> bool)

  /** The callback's context as a value: the target cells and the cursor into them. */
  datatype State = State(count: nat, target: seq<WChar>, cursor: nat, flag: bool, seen: seq<Str>)

  class CallBackData {
    var Count: UINT
    var TargetMtString: array<WChar>
    var TmpTargetMtString: UINT      // index of the next cell to write
    var Flag: bool                   // Found, or Added
    var Seen: seq<Str>               // what a callback from outside has been given

    constructor (target: array<WChar>, cursor: UINT, flag: bool, count: UINT)
      ensures TargetMtString == target && Abs() == State(count, target[..], cursor, flag, [])
    {
      Count, TargetMtString, TmpTargetMtString, Flag, Seen := count, target, cursor, flag, [];
    }

    ghost function Abs(): State
      reads this, TargetMtString
    {
      State(Count, TargetMtString[..], TmpTargetMtString, Flag, Seen)
    }

    /** RtlCopyMemory to the cursor, which then moves past the copied cells. */
    method Append(data: seq<WChar>)
      requires TmpTargetMtString + |data| <= TargetMtString.Length < MAX_CELLS
      modifies this`TmpTargetMtString, TargetMtString
      ensures Abs() == Write(old(Abs()), data)
    {
      var target, at := TargetMtString, TmpTargetMtString;
      forall i | 0 <= i < |data| {
        target[at + i] := data[i];
      }
      TmpTargetMtString := at + |data|;
      assert target[..] == Write(old(Abs()), data).target;
    }

    method Invoke(fold: Fold, cb: CallBack, data: Str, dataLength: UINT) returns (ok: bool)
      requires dataLength == |data| + 1 && TargetMtString.Length < MAX_CELLS
      requires Fits(fold, cb, Abs(), data)
      modifies this, TargetMtString
      ensures TargetMtString == old(TargetMtString)
      ensures Abs() == Step(fold, cb, old(Abs()), data) && ok == GoesOn(cb, Abs())
    {
      ok := true;
      match cb
      case NullCallBack =>
      case GetMultiStringSizeCallBack =>
        Count := Count + dataLength;
      case DeleteStringCallBack(delString) =>
        if delString.Some? && Match(fold, data, delString.value) {
          Flag := true;
        } else {
          Append(data + [0]);
        }
        ghost var written := TargetMtString[..];
        TargetMtString[TmpTargetMtString] := 0;
        assert TargetMtString[..] == written[TmpTargetMtString := 0];
      case AddStringCallBack(after, addString) =>
        Append(data + [0]);
        if after.Some? && !Flag {
          if Match(fold, data, after.value) {
            Append(addString + [0]);
            Flag := true;
          }
        }
      case UserCallBack(accepts) =>
        Seen := Seen + [data];
        ok := accepts(Seen);
    }
  }

  // ---- what the callbacks do, on values ----

  function Write(st: State, data: seq<WChar>): State
    requires st.cursor + |data| <= |st.target|
  {
    st.(target := st.target[..st.cursor] + data + st.target[st.cursor + |data|..],
        cursor := st.cursor + |data|)
  }

  /** The writes of one callback stay inside the target, and its count inside 32 bits. */
  predicate Fits(fold: Fold, cb: CallBack, st: State, s: Str) {
    match cb
    case NullCallBack => true
    case GetMultiStringSizeCallBack => st.count + |s| + 1 < 0x1_0000_0000
    case DeleteStringCallBack(del) =>
      st.cursor + (if del.Some? && Match(fold, s, del.value) then 0 else |s| + 1) < |st.target|
    case AddStringCallBack(after, add) =>
      st.cursor + |s| + 1
      + (if after.Some? && !st.flag && Match(fold, s, after.value) then |add| + 1 else 0) <= |st.target|
    case UserCallBack(_) => true
  }

  function Step(fold: Fold, cb: CallBack, st: State, s: Str): State
    requires Fits(fold, cb, st, s)
  {
    match cb
    case NullCallBack => st
    case GetMultiStringSizeCallBack => st.(count := st.count + |s| + 1)
    case DeleteStringCallBack(del) =>
      var st' := if del.Some? && Match(fold, s, del.value) then st.(flag := true) else Write(st, s + [0]);
      st'.(target := st'.target[st'.cursor := 0])
    case AddStringCallBack(after, add) =>
      var st' := Write(st, s + [0]);
      if after.Some? && !st.flag && Match(fold, s, after.value)
      then Write(st', add + [0]).(flag := true) else st'
    case UserCallBack(_) => st.(seen := st.seen + [s])
  }

  /** The answer of the callback that has led to the state `st`. */
  predicate GoesOn(cb: CallBack, st: State) {
    cb.UserCallBack? ==> cb.accepts(st.seen)
  }

  /** The callbacks on a list of strings; None when one of them would not fit. */
  function Run(fold: Fold, cb: CallBack, st: State, ss: seq<Str>): Option<State>
    decreases |ss|
  {
    if ss == [] then Some(st)
    else if Fits(fold, cb, st, ss[0]) then Run(fold, cb, Step(fold, cb, st, ss[0]), ss[1..])
    else None
  }

  lemma RunHead(fold: Fold, cb: CallBack, st: State, s: Str, rest: seq<Str>)
    requires Run(fold, cb, st, [s] + rest).Some?
    ensures Fits(fold, cb, st, s)
    ensures Run(fold, cb, st, [s] + rest) == Run(fold, cb, Step(fold, cb, st, s), rest)
  {
    assert ([s] + rest)[1..] == rest;
  }

  function Calls(scan: Scan): seq<Str> {
    if scan.OutOfBounds? then [] else scan.calls
  }

  // ---- the parse loop ----

  /** wcslen */
  method Wcslen(buffer: array<WChar>, p: UINT) returns (n: UINT)
    requires buffer.Length < MAX_CELLS && p <= buffer.Length && FirstNul(buffer[..], p) < buffer.Length
    ensures p + n == FirstNul(buffer[..], p)
  {
    n := 0;
    while buffer[p + n] != 0
      invariant p + n <= FirstNul(buffer[..], p)
      decreases buffer.Length - n
    {
      n := n + 1;
    }
    assert buffer[..][p + n] == 0;
    assert 0 !in buffer[..][p..FirstNul(buffer[..], p)];
    assert forall i | p <= i < FirstNul(buffer[..], p) ::
        buffer[..][i] == buffer[..][p..FirstNul(buffer[..], p)][i - p];
  }

  /** The state in which the parse from `p` ends, with its callbacks from the state `st`, and its
      verdict; None when it reads past the allocation or a callback does not fit. */
  ghost function End(fold: Fold, cb: CallBack, st: State, cells: seq<WChar>, p: nat, max: nat): Option<(State, bool)>
    requires p <= |cells|
    decreases |cells| - p
  {
    var k := FirstNul(cells, p);
    if k == |cells| then None
    else if max != 0 && k + 1 >= max then Some((st, false))
    else if !Fits(fold, cb, st, cells[p..k]) then None
    else
      var st' := Step(fold, cb, st, cells[p..k]);
      if !GoesOn(cb, st') then Some((st', false))
      else if k + 1 == |cells| then None
      else if cells[k + 1] == 0 then Some((st', true))
      else End(fold, cb, st', cells, k + 1, max)
  }

  /** What a parse that stays inside the allocation does with the string at `p`. */
  lemma EndReads(fold: Fold, cb: CallBack, st: State, cells: seq<WChar>, p: nat, max: nat)
    requires p <= |cells| && End(fold, cb, st, cells, p, max).Some?
    ensures var k, here := FirstNul(cells, p), End(fold, cb, st, cells, p, max);
            && k < |cells|
            && (if max != 0 && k + 1 >= max then here == Some((st, false))
                else
                  && Fits(fold, cb, st, cells[p..k])
                  && var st' := Step(fold, cb, st, cells[p..k]);
                     if !GoesOn(cb, st') then here == Some((st', false))
                     else
                       && k + 1 < |cells|
                       && here == if cells[k + 1] == 0 then Some((st', true)) else End(fold, cb, st', cells, k + 1, max))
  {
  }

  /** One turn of the loop: `more` when it goes on with the string at `next`, and otherwise `ok` is
      what the parse returns. */
  method ParseOne(fold: Fold, multiString: array<WChar>, tmp: UINT, length: UINT, multiStringMaxLen: UINT,
                  callBack: CallBack, context: CallBackData)
    returns (more: bool, next: UINT, totalLength: UINT, ok: bool)
    requires multiString.Length < MAX_CELLS && context.TargetMtString.Length < MAX_CELLS
    requires multiString != context.TargetMtString && length == tmp <= multiString.Length
    requires End(fold, callBack, context.Abs(), multiString[..], tmp, multiStringMaxLen).Some?
    modifies context, context.TargetMtString
    ensures context.TargetMtString == old(context.TargetMtString)
    ensures var end := End(fold, callBack, old(context.Abs()), old(multiString[..]), tmp, multiStringMaxLen);
            if more then
              && tmp < next == totalLength <= multiString.Length
              && end == End(fold, callBack, context.Abs(), old(multiString[..]), next, multiStringMaxLen)
            else end == Some((context.Abs(), ok))
  {
    ghost var cells, st := multiString[..], context.Abs();
    EndReads(fold, callBack, st, cells, tmp, multiStringMaxLen);
    ghost var end := End(fold, callBack, st, cells, tmp, multiStringMaxLen);
    var tmpLength := Wcslen(multiString, tmp);
    tmpLength := tmpLength + 1;
    totalLength := length + tmpLength;
    if multiStringMaxLen != 0 {
      if totalLength >= multiStringMaxLen {
        return false, tmp, totalLength, false;
      }
    }
    if !callBack.NullCallBack? {
      var data := multiString[tmp..tmp + tmpLength - 1];
      assert data == cells[tmp..tmp + tmpLength - 1];
      var goOn := context.Invoke(fold, callBack, data, tmpLength);
      if !goOn {
        return false, tmp, totalLength, false;
      }
    }
    next := tmp + tmpLength;
    assert multiString[next] == cells[next];
    assert end == if cells[next] == 0 then Some((context.Abs(), true))
                  else End(fold, callBack, context.Abs(), cells, next, multiStringMaxLen);
    more, ok := multiString[next] != 0, true;
  }

  method ParseMultiStringInternal(fold: Fold, multiString: array<WChar>, multiStringMaxLen: UINT,
                                  callBack: CallBack, context: CallBackData) returns (ok: bool)
    requires multiString.Length < MAX_CELLS && context.TargetMtString.Length < MAX_CELLS
    requires multiString != context.TargetMtString
    requires End(fold, callBack, context.Abs(), multiString[..], 0, multiStringMaxLen).Some?
    modifies context, context.TargetMtString
    ensures context.TargetMtString == old(context.TargetMtString)
    ensures Some((context.Abs(), ok)) == End(fold, callBack, old(context.Abs()), multiString[..], 0, multiStringMaxLen)
  {
    ghost var cells, max := multiString[..], multiStringMaxLen;
    ghost var end := End(fold, callBack, context.Abs(), cells, 0, max);
    var tmp: UINT, totalLength: UINT := 0, 0;
    var more := true;
    ok := false;
    while more
      invariant multiString[..] == cells && context.TargetMtString == old(context.TargetMtString)
      invariant more ==> totalLength == tmp <= |cells|
      invariant end.Some? && end == if more then End(fold, callBack, context.Abs(), cells, tmp, max) else Some((context.Abs(), ok))
      decreases more, |cells| - tmp
    {
      more, tmp, totalLength, ok := ParseOne(fold, multiString, tmp, totalLength, multiStringMaxLen, callBack, context);
    }
  }

  method ParseMultiString(fold: Fold, multiString: array<WChar>, callBack: CallBack, context: CallBackData)
    returns (ok: bool)
    requires multiString.Length < MAX_CELLS && context.TargetMtString.Length < MAX_CELLS
    requires multiString != context.TargetMtString
    requires End(fold, callBack, context.Abs(), multiString[..], 0, 0).Some?
    modifies context, context.TargetMtString
    ensures context.TargetMtString == old(context.TargetMtString)
    ensures Some((context.Abs(), ok)) == End(fold, callBack, old(context.Abs()), multiString[..], 0, 0)
  {
    ok := ParseMultiStringInternal(fold, multiString, 0, callBack, context);
  }

  /** One turn that goes on. */
  lemma EndTurn(fold: Fold, cb: CallBack, st: State, cells: seq<WChar>, p: nat, max: nat, k: nat)
    requires p <= k && k + 1 < |cells| && FirstNul(cells, p) == k && (max == 0 || k + 1 < max)
    requires Fits(fold, cb, st, cells[p..k]) && GoesOn(cb, Step(fold, cb, st, cells[p..k]))
    ensures var st' := Step(fold, cb, st, cells[p..k]);
            End(fold, cb, st, cells, p, max)
            == if cells[k + 1] == 0 then Some((st', true)) else End(fold, cb, st', cells, k + 1, max)
  {
  }

  /** A callback that never refuses is called on exactly the strings that the parse delivers, in
      order, and the verdict is that of the parse. */
  lemma {:induction false} EndRun(fold: Fold, cb: CallBack, st: State, cells: seq<WChar>, p: nat, max: nat)
    requires p <= |cells| && !cb.UserCallBack? && !Parse(cells, p, max).OutOfBounds?
    requires Run(fold, cb, st, Parse(cells, p, max).calls).Some?
    ensures var scan := Parse(cells, p, max);
            End(fold, cb, st, cells, p, max) == Some((Run(fold, cb, st, scan.calls).value, scan.Accepted?))
    decreases |cells| - p
  {
    var k := FirstNul(cells, p);
    if max == 0 || k + 1 < max {
      var s := cells[p..k];
      ParseUnfold(cells, p, max, k);
      if cells[k + 1] == 0 {
        assert [s] + [] == [s];
        RunHead(fold, cb, st, s, []);
      } else {
        RunHead(fold, cb, st, s, Parse(cells, k + 1, max).calls);
        EndRun(fold, cb, Step(fold, cb, st, s), cells, k + 1, max);
      }
      EndTurn(fold, cb, st, cells, p, max, k);
    }
  }

  // ---- a callback from outside ----

  /** The strings a callback is given: all of them, or up to the first that it refuses. */
  function Heard(accepts: seq<Str> -> bool, seen: seq<Str>, ss: seq<Str>): seq<Str>
    decreases |ss|
  {
    if ss == [] then []
    else if !accepts(seen + [ss[0]]) then [ss[0]]
    else [ss[0]] + Heard(accepts, seen + [ss[0]], ss[1..])
  }

  /** The callback accepts every string. */
  predicate Willing(accepts: seq<Str> -> bool, seen: seq<Str>, ss: seq<Str>) {
    forall n | 1 <= n <= |ss| :: accepts(seen + ss[..n])
  }

  /** The first string of a start of a list, moved to what has been seen. */
  lemma SeenShift(seen: seq<Str>, s: Str, rest: seq<Str>, n: nat)
    requires n <= |rest|
    ensures seen + ([s] + rest)[..n + 1] == seen + [s] + rest[..n]
  {
    assert ([s] + rest)[..n + 1] == [s] + rest[..n];
  }

  lemma HeardHead(accepts: seq<Str> -> bool, seen: seq<Str>, s: Str, rest: seq<Str>)
    ensures Heard(accepts, seen, [s] + rest)
         == if accepts(seen + [s]) then [s] + Heard(accepts, seen + [s], rest) else [s]
    ensures Willing(accepts, seen, [s] + rest) <==> accepts(seen + [s]) && Willing(accepts, seen + [s], rest)
  {
    var ss := [s] + rest;
    assert ss[1..] == rest && ss[..1] == [s];
    forall n | 0 <= n <= |rest| ensures seen + ss[..n + 1] == seen + [s] + rest[..n] {
      SeenShift(seen, s, rest, n);
    }
    if accepts(seen + [s]) && Willing(accepts, seen + [s], rest) {
      forall n | 1 <= n <= |ss| ensures accepts(seen + ss[..n]) {
        assert seen + ss[..n - 1 + 1] == seen + [s] + rest[..n - 1];
      }
    }
  }

  /** The strings given are the shortest start of the list whose last one is refused, or the list. */
  lemma {:induction false} HeardExact(accepts: seq<Str> -> bool, seen: seq<Str>, ss: seq<Str>)
    ensures var h := Heard(accepts, seen, ss);
            && h <= ss
            && (forall n | 1 <= n < |h| :: accepts(seen + ss[..n]))
            && (if Willing(accepts, seen, ss) then h == ss else h != [] && !accepts(seen + h))
    decreases |ss|
  {
    if ss != [] {
      var s, rest := ss[0], ss[1..];
      assert ss == [s] + rest;
      HeardHead(accepts, seen, s, rest);
      if accepts(seen + [s]) {
        HeardExact(accepts, seen + [s], rest);
        var h := Heard(accepts, seen + [s], rest);
        assert seen + ([s] + h) == seen + [s] + h;
        forall n | 1 <= n < |h| + 1 ensures accepts(seen + ss[..n]) {
          SeenShift(seen, s, rest, n - 1);
          assert n == 1 ==> seen + [s] + rest[..0] == seen + [s];
        }
      }
    }
  }

  /** What a callback from outside makes of the strings that a parse delivers. */
  function UserEnd(accepts: seq<Str> -> bool, st: State, scan: Scan): (State, bool)
    requires !scan.OutOfBounds?
  {
    (st.(seen := st.seen + Heard(accepts, st.seen, scan.calls)),
     scan.Accepted? && Willing(accepts, st.seen, scan.calls))
  }

  lemma UserEndTurn(accepts: seq<Str> -> bool, st: State, s: Str, scan: Scan)
    requires !scan.OutOfBounds?
    ensures var st' := st.(seen := st.seen + [s]);
            UserEnd(accepts, st, scan.Prepend(s))
            == if accepts(st'.seen) then UserEnd(accepts, st', scan) else (st', false)
  {
    HeardHead(accepts, st.seen, s, scan.calls);
    var h := Heard(accepts, st.seen + [s], scan.calls);
    assert st.seen + ([s] + h) == st.seen + [s] + h;
  }

  /** A parse with a callback from outside gives it the strings up to the first refusal, in order, and
      returns TRUE exactly when the parse accepts and the callback refuses none. */
  lemma {:induction false} EndHeard(fold: Fold, cb: CallBack, st: State, cells: seq<WChar>, p: nat, max: nat)
    requires p <= |cells| && cb.UserCallBack? && !Parse(cells, p, max).OutOfBounds?
    ensures End(fold, cb, st, cells, p, max) == Some(UserEnd(cb.accepts, st, Parse(cells, p, max)))
    decreases |cells| - p
  {
    var k := FirstNul(cells, p);
    if max == 0 || k + 1 < max {
      var s := cells[p..k];
      ParseUnfold(cells, p, max, k);
      var rest := if cells[k + 1] == 0 then Accepted([]) else Parse(cells, k + 1, max);
      UserEndTurn(cb.accepts, st, s, rest);
      if cells[k + 1] != 0 {
        EndHeard(fold, cb, Step(fold, cb, st, s), cells, k + 1, max);
      } else {
        assert Accepted([s]) == Accepted([]).Prepend(s);
        LastUserEnd(cb.accepts, st.(seen := st.seen + [s]), Accepted([]));
      }
    } else {
      LastUserEnd(cb.accepts, st, Rejected([]));
    }
  }

  lemma LastUserEnd(accepts: seq<Str> -> bool, st: State, scan: Scan)
    requires !scan.OutOfBounds? && scan.calls == []
    ensures UserEnd(accepts, st, scan) == (st, scan.Accepted?)
  {
    assert st.seen + [] == st.seen;
  }

  // ---- sizes ----

  lemma {:induction false} SizeRun(fold: Fold, st: State, ss: seq<Str>)
    requires st.count + |Cells(ss)| < 0x1_0000_0000
    ensures Run(fold, GetMultiStringSizeCallBack, st, ss) == Some(st.(count := st.count + |Cells(ss)|))
    decreases |ss|
  {
    if ss != [] {
      assert Cells(ss) == ss[0] + [0] + Cells(ss[1..]);
      SizeRun(fold, Step(fold, GetMultiStringSizeCallBack, st, ss[0]), ss[1..]);
    }
  }

  /** The strings of a limited parse, accepted or not, fit in the buffer. */
  lemma {:induction false} CallsFit(cells: seq<WChar>, p: nat, max: nat)
    requires p <= |cells|
    ensures |Cells(Calls(Parse(cells, p, max)))| <= |cells| - p
    decreases |cells| - p
  {
    var k := FirstNul(cells, p);
    if k + 1 < |cells| && (max == 0 || k + 1 < max) {
      if cells[k + 1] == 0 {
        CellsSingle(cells[p..k]);
      } else {
        CallsFit(cells, k + 1, max);
        var rest := Parse(cells, k + 1, max);
        if !rest.OutOfBounds? {
          assert ([cells[p..k]] + rest.calls)[1..] == rest.calls;
        }
      }
    }
  }

  method CheckMultiString(fold: Fold, multiString: array<WChar>, multiStringMaxLen: UINT) returns (ok: bool)
    requires multiString.Length < MAX_CELLS
    requires !Parse(multiString[..], 0, multiStringMaxLen).OutOfBounds?
    ensures ok <==> exists i :: i + 2 <= multiStringMaxLen && DoubleNulAt(multiString[..], i)
    ensures ok ==> Parse(multiString[..], 0, multiStringMaxLen).Accepted?
  {
    ghost var cells, max := multiString[..], multiStringMaxLen;
    var none := new WChar[0];
    var data := new CallBackData(none, 0, false, 1);
    CallsFit(cells, 0, max);
    SizeRun(fold, data.Abs(), Parse(cells, 0, max).calls);
    if max > 0 {
      ParseLimitExact(cells, 0, max);
      if Parse(cells, 0, max).Accepted? {
        EncodeParse(cells, 0, max);
      }
    }
    EndRun(fold, GetMultiStringSizeCallBack, data.Abs(), cells, 0, max);
    var parsed := ParseMultiStringInternal(fold, multiString, multiStringMaxLen, GetMultiStringSizeCallBack, data);
    if !parsed {
      return false;
    }
    return data.Count <= multiStringMaxLen;
  }

  method GetMultiStringSize(fold: Fold, multiString: array<WChar>) returns (size: UINT)
    requires multiString.Length < MAX_CELLS && WellFormed(multiString[..])
    ensures size == |Encode(Strings(multiString[..]))| <= multiString.Length
    ensures Encode(Strings(multiString[..])) == multiString[..size]
  {
    ghost var cells := multiString[..];
    var none := new WChar[0];
    var data := new CallBackData(none, 0, false, 1);
    CallsFit(cells, 0, 0);
    SizeRun(fold, data.Abs(), Strings(cells));
    EncodeParse(cells, 0, 0);
    assert cells[0..] == cells;
    EndRun(fold, GetMultiStringSizeCallBack, data.Abs(), cells, 0, 0);
    var ok := ParseMultiString(fold, multiString, GetMultiStringSizeCallBack, data);
    size := 0;
    if ok {
      size := data.Count;
    }
  }

  // ---- deletion ----

  /** The target holds the cells `cs` and is zero behind them. */
  predicate Padded(target: seq<WChar>, cs: seq<WChar>) {
    cs <= target && forall i | |cs| <= i < |target| :: target[i] == 0
  }

  lemma WritePadded(st: State, cs: seq<WChar>, data: seq<WChar>)
    requires Padded(st.target, cs) && st.cursor == |cs| && |cs| + |data| <= |st.target|
    ensures Padded(Write(st, data).target, cs + data)
    ensures |Write(st, data).target| == |st.target|
    ensures |cs| + |data| < |st.target| ==>
              var st' := Write(st, data); st'.target[st'.cursor := 0] == st'.target
  {
    var t := Write(st, data).target;
    assert t[..|cs|] == cs;
    assert t[..|cs + data|] == cs + data;
  }

  function Kept(fold: Fold, ss: seq<Str>, del: Option<Str>): seq<Str> {
    if del.None? then ss else Without(fold, ss, del.value)
  }

  lemma {:induction false} DeleteRun(fold: Fold, del: Option<Str>, st: State, done: seq<Str>, ss: seq<Str>)
    requires Padded(st.target, Cells(done)) && st.cursor == |Cells(done)|
    requires |Cells(done)| + |Cells(ss)| < |st.target|
    ensures var cb := DeleteStringCallBack(del);
            && Run(fold, cb, st, ss).Some?
            && var st' := Run(fold, cb, st, ss).value;
               && Padded(st'.target, Cells(done + Kept(fold, ss, del)))
               && |st'.target| == |st.target|
               && (st'.flag <==> st.flag || (del.Some? && HasMatch(fold, ss, del.value)))
    decreases |ss|
  {
    if ss == [] {
      assert done + Kept(fold, ss, del) == done;
    } else {
      var cb, s, rest := DeleteStringCallBack(del), ss[0], ss[1..];
      assert Cells(ss) == s + [0] + Cells(rest);
      if del.Some? {
        HasMatchTail(fold, ss, del.value);
      }
      DeleteStep(fold, del, st, done, s);
      if del.Some? && Match(fold, s, del.value) {
        DeleteRun(fold, del, Step(fold, cb, st, s), done, rest);
      } else {
        DeleteRun(fold, del, Step(fold, cb, st, s), done + [s], rest);
        assert done + [s] + Kept(fold, rest, del) == done + Kept(fold, ss, del);
      }
    }
  }

  lemma DeleteStep(fold: Fold, del: Option<Str>, st: State, done: seq<Str>, s: Str)
    requires Padded(st.target, Cells(done)) && st.cursor == |Cells(done)|
    requires Fits(fold, DeleteStringCallBack(del), st, s)
    ensures var st' := Step(fold, DeleteStringCallBack(del), st, s);
            var matches := del.Some? && Match(fold, s, del.value);
            var done' := if matches then done else done + [s];
            && Padded(st'.target, Cells(done')) && st'.cursor == |Cells(done')|
            && |st'.target| == |st.target| && (st'.flag <==> st.flag || matches)
            && |Cells(done')| == |Cells(done)| + (if matches then 0 else |s| + 1)
  {
    if del.Some? && Match(fold, s, del.value) {
      assert st.target[st.cursor := 0] == st.target;
    } else {
      CellsSnoc(done, s);
      WritePadded(st, Cells(done), s + [0]);
    }
  }

  lemma CellsSnoc(done: seq<Str>, s: Str)
    ensures Cells(done + [s]) == Cells(done) + (s + [0])
  {
    CellsAppend(done, [s]);
    CellsSingle(s);
  }

  /** A padded target with room for the closing NUL parses to the visible part of its list. */
  lemma PaddedParse(target: seq<WChar>, ss: seq<Str>)
    requires Padded(target, Cells(ss)) && |Cells(ss)| + 1 < |target| + (if ss == [] then 0 else 1)
    requires AllNoNul(ss)
    ensures WellFormed(target) && Strings(target) == Visible(OrEmpty(ss))
    ensures exists i :: i + 2 <= |target| && DoubleNulAt(target, i)
    ensures Parse(target, 0, |target|).Accepted?
  {
    var shown := OrEmpty(ss);
    CellsSingle([]);
    assert Encode(shown) <= target;
    assert target[0..] == target;
    ParseLayout(target, 0, 0, shown);
    EncodeParse(target, 0, 0);
    var e := Encode(Visible(shown));
    ParseLayout(target, 0, |e|, shown);
    ParseLimitExact(target, 0, |e|);
    ParseLimitExact(target, 0, |target|);
  }

  method CopyDeleteStringFromMultiString(fold: Fold, multiString: array<WChar>, delString: Option<Str>)
    returns (ok: bool, multiStringCopy: array?<WChar>)
    requires multiString.Length < MAX_CELLS && WellFormed(multiString[..])
    requires delString.Some? ==> NoNul(delString.value)
    ensures var ss := Strings(multiString[..]);
            && (ok <==> delString.None? || HasMatch(fold, ss, delString.value))
            && (ok <==> multiStringCopy != null)
            && (ok ==> && fresh(multiStringCopy)
                       && multiStringCopy.Length == |Encode(ss)|
                       && Padded(multiStringCopy[..], Cells(Kept(fold, ss, delString)))
                       && WellFormed(multiStringCopy[..])
                       && Strings(multiStringCopy[..]) == OrEmpty(Kept(fold, ss, delString)))
  {
    ghost var ss := Strings(multiString[..]);
    ghost var kept := Kept(fold, ss, delString);
    EncodeParse(multiString[..], 0, 0);
    if delString.Some? {
      WithoutExact(fold, ss, delString.value);
    }
    var tmpSize := GetMultiStringSize(fold, multiString);
    var target := new WChar[tmpSize](_ => 0);
    var data := new CallBackData(target, 0, false, 0);
    assert Padded(target[..], Cells([]));
    DeleteRun(fold, delString, data.Abs(), [], ss);
    assert [] + kept == kept;
    EndRun(fold, DeleteStringCallBack(delString), data.Abs(), multiString[..], 0, 0);
    var parsed := ParseMultiString(fold, multiString, DeleteStringCallBack(delString), data);
    if !parsed {
      return false, null;
    }
    if delString.Some? {
      if !data.Flag {
        return false, null;
      }
    }
    DeletedFits(fold, ss, delString);
    PaddedParse(target[..], kept);
    VisibleParsable(OrEmpty(kept));
    ghost var t := target[..];
    assert |t| == tmpSize;
    var valid := CheckMultiString(fold, target, tmpSize);
    assert target[..] == t;
    if !valid {
      return false, null;
    }
    return true, target;
  }

  lemma DeletedFits(fold: Fold, ss: seq<Str>, del: Option<Str>)
    requires Parsable(ss)
    ensures var kept := Kept(fold, ss, del);
            && Parsable(OrEmpty(kept)) && AllNoNul(kept)
            && |Cells(kept)| <= |Cells(ss)| && |Encode(ss)| >= 2
  {
    if del.Some? {
      WithoutExact(fold, ss, del.value);
    }
  }

  // ---- insertion ----

  function AddRunList(fold: Fold, after: Option<Str>, flag: bool, ss: seq<Str>, add: Str): seq<Str> {
    if after.None? || flag then ss else InsertAfter(fold, ss, after.value, add)
  }

  lemma AddRunListStep(fold: Fold, after: Option<Str>, flag: bool, ss: seq<Str>, add: Str, done: seq<Str>)
    requires ss != []
    ensures var adds := after.Some? && !flag && Match(fold, ss[0], after.value);
            done + AddRunList(fold, after, flag, ss, add)
            == (if adds then done + [ss[0]] + [add] else done + [ss[0]]) + AddRunList(fold, after, flag || adds, ss[1..], add)
  {
  }

  lemma {:induction false} AddRun(fold: Fold, after: Option<Str>, add: Str, st: State, done: seq<Str>, ss: seq<Str>)
    requires Padded(st.target, Cells(done)) && st.cursor == |Cells(done)|
    requires |Cells(done)| + |Cells(ss)| + (if after.None? || st.flag then 0 else |add| + 1) <= |st.target|
    ensures var cb := AddStringCallBack(after, add);
            && Run(fold, cb, st, ss).Some?
            && var st' := Run(fold, cb, st, ss).value;
               && Padded(st'.target, Cells(done + AddRunList(fold, after, st.flag, ss, add)))
               && |st'.target| == |st.target|
               && (st'.flag <==> st.flag || (after.Some? && HasMatch(fold, ss, after.value)))
    decreases |ss|
  {
    var out := AddRunList(fold, after, st.flag, ss, add);
    if ss == [] {
      assert done + out == done;
    } else {
      var cb, s, rest := AddStringCallBack(after, add), ss[0], ss[1..];
      assert Cells(ss) == s + [0] + Cells(rest);
      AddStep(fold, after, add, st, done, s);
      var adds := after.Some? && !st.flag && Match(fold, s, after.value);
      var done' := if adds then done + [s] + [add] else done + [s];
      AddRun(fold, after, add, Step(fold, cb, st, s), done', rest);
      AddRunListStep(fold, after, st.flag, ss, add, done);
      if after.Some? {
        HasMatchTail(fold, ss, after.value);
      }
    }
  }

  lemma AddStep(fold: Fold, after: Option<Str>, add: Str, st: State, done: seq<Str>, s: Str)
    requires Padded(st.target, Cells(done)) && st.cursor == |Cells(done)|
    requires Fits(fold, AddStringCallBack(after, add), st, s)
    ensures var st' := Step(fold, AddStringCallBack(after, add), st, s);
            var adds := after.Some? && !st.flag && Match(fold, s, after.value);
            var done' := if adds then done + [s] + [add] else done + [s];
            && Padded(st'.target, Cells(done')) && st'.cursor == |Cells(done')|
            && |st'.target| == |st.target| && (st'.flag <==> st.flag || adds)
            && |Cells(done')| == |Cells(done)| + |s| + 1 + (if adds then |add| + 1 else 0)
  {
    CellsSnoc(done, s);
    WritePadded(st, Cells(done), s + [0]);
    if after.Some? && !st.flag && Match(fold, s, after.value) {
      CellsSnoc(done + [s], add);
      WritePadded(Write(st, s + [0]), Cells(done + [s]), add + [0]);
    }
  }

  function AfterString(where_: Where): Option<Str> {
    match where_
    case After(s) => Some(s)
    case _ => None
  }

  method CopyAddStringToMultiString(fold: Fold, multiString: array<WChar>, addString: Str, after: Where)
    returns (ok: bool, multiStringCopy: array?<WChar>)
    requires multiString.Length + |addString| + 1 < MAX_CELLS && WellFormed(multiString[..])
    requires NoNul(addString) && (after.After? ==> NoNul(after.s))
    ensures var d := OrEmpty(Without(fold, Strings(multiString[..]), addString));
            && (ok <==> after.After? ==> HasMatch(fold, d, after.s))
            && (ok <==> multiStringCopy != null)
            && (ok ==> && fresh(multiStringCopy)
                       && multiStringCopy[..] == Encode(Inserted(fold, d, addString, after))
                       && WellFormed(multiStringCopy[..])
                       && Strings(multiStringCopy[..]) == Visible(Inserted(fold, d, addString, after)))
  {
    ghost var d := OrEmpty(Without(fold, Strings(multiString[..]), addString));
    var tmp := CopyWithout(fold, multiString, addString);
    if tmp == null {
      return false, null;
    }
    var addLength: UINT := |addString| + 1;
    var tmpSize := GetMultiStringSize(fold, tmp);
    tmpSize := tmpSize + addLength;
    var target := new WChar[tmpSize](_ => 0);
    var filled := FillTarget(fold, tmp, target, addString, after);
    if !filled {
      return false, null;
    }
    ghost var whole := Inserted(fold, d, addString, after);
    AddedFits(fold, d, addString, after);
    ghost var t := target[..];
    PaddedParse(t, if after == AtEnd then d else whole);
    var valid := CheckMultiString(fold, target, tmpSize);
    assert target[..] == t;
    if !valid {
      return false, null;
    }
    if after == AtEnd {
      VisibleParsable(d);
      AppendAtEnd(fold, target, d, addString);
      t := target[..];
      PaddedParse(t, whole);
      valid := CheckMultiString(fold, target, tmpSize);
      assert target[..] == t;
      if !valid {
        return false, null;
      }
    }
    PaddedFull(t, whole);
    PaddedParse(t, whole);
    return true, target;
  }

  lemma PaddedFull(target: seq<WChar>, ss: seq<Str>)
    requires Padded(target, Cells(ss)) && |target| == |Encode(ss)|
    ensures target == Encode(ss)
  {
    assert target == target[..|target| - 1] + [target[|target| - 1]];
  }

  /** A copy in which the string to add is not there. */
  method CopyWithout(fold: Fold, multiString: array<WChar>, addString: Str) returns (tmp: array?<WChar>)
    requires multiString.Length < MAX_CELLS && WellFormed(multiString[..]) && NoNul(addString)
    ensures tmp != null && fresh(tmp) && tmp.Length <= multiString.Length && WellFormed(tmp[..])
    ensures var d := OrEmpty(Without(fold, Strings(multiString[..]), addString));
            Strings(tmp[..]) == d && Parsable(d)
  {
    ghost var cells := multiString[..];
    EncodeParse(cells, 0, 0);
    DeletedFits(fold, Strings(cells), Some(addString));
    WithoutExact(fold, Strings(cells), addString);
    var copied;
    copied, tmp := CopyDeleteStringFromMultiString(fold, multiString, Some(addString));
    if !copied {
      assert multiString[..] == cells;
      copied, tmp := CopyDeleteStringFromMultiString(fold, multiString, None);
    }
  }

  /** What stands in the new buffer before the old strings are copied. */
  function Front(where_: Where, add: Str): seq<Str> {
    if where_.AtStart? then [add] else []
  }

  lemma FrontInserted(fold: Fold, where_: Where, d: seq<Str>, add: Str)
    ensures Front(where_, add) + AddRunList(fold, AfterString(where_), !where_.After?, d, add)
         == if where_.AtEnd? then d else Inserted(fold, d, add, where_)
    ensures |Cells(Front(where_, add))| == if where_.AtStart? then |add| + 1 else 0
  {
    if where_.AtStart? {
      CellsSingle(add);
    }
  }

  /** The string at the head of the new buffer. */
  method PutFront(target: array<WChar>, addString: Str, after: Where) returns (startCopyIndex: UINT)
    requires target.Length < MAX_CELLS && |addString| + 1 <= target.Length && Padded(target[..], [])
    modifies target
    ensures startCopyIndex == |Cells(Front(after, addString))|
    ensures Padded(target[..], Cells(Front(after, addString)))
  {
    startCopyIndex := 0;
    if after == AtStart {
      startCopyIndex := |addString| + 1;
      forall i | 0 <= i < |addString| + 1 {
        target[i] := (addString + [0])[i];
      }
      CellsSingle(addString);
      assert target[..startCopyIndex] == addString + [0];
    }
  }

  /** The copy of the old strings into the new buffer, with the string at the head or after its
      predecessor. */
  method FillTarget(fold: Fold, tmp: array<WChar>, target: array<WChar>, addString: Str, after: Where)
    returns (added: bool)
    requires tmp != target && tmp.Length < MAX_CELLS && target.Length < MAX_CELLS
    requires WellFormed(tmp[..]) && Padded(target[..], [])
    requires target.Length == |Encode(Strings(tmp[..]))| + |addString| + 1
    modifies target
    ensures added <==> after.After? ==> HasMatch(fold, Strings(old(tmp[..])), after.s)
    ensures var d := Strings(old(tmp[..]));
            Padded(target[..], Cells(if after == AtEnd then d else Inserted(fold, d, addString, after)))
  {
    ghost var cells := tmp[..];
    ghost var d := Strings(cells);
    FrontInserted(fold, after, d, addString);
    var startCopyIndex := PutFront(target, addString, after);
    added := after == AtStart || after == AtEnd;
    var data := new CallBackData(target, startCopyIndex, added, 0);
    AddRun(fold, AfterString(after), addString, data.Abs(), Front(after, addString), d);
    assert tmp[..] == cells;
    EndRun(fold, AddStringCallBack(AfterString(after), addString), data.Abs(), cells, 0, 0);
    var parsed := ParseMultiString(fold, tmp, AddStringCallBack(AfterString(after), addString), data);
    added := data.Flag;
  }

  /** The copy of the string over the closing NUL. */
  method AppendAtEnd(fold: Fold, target: array<WChar>, ghost d: seq<Str>, addString: Str)
    requires target.Length < MAX_CELLS
    requires WellFormed(target[..]) && Strings(target[..]) == d
    requires Padded(target[..], Cells(d)) && target.Length == |Encode(d)| + |addString| + 1
    modifies target
    ensures Padded(target[..], Cells(d + [addString]))
  {
    var tmpLength := GetMultiStringSize(fold, target);
    ghost var t := target[..];
    forall i | 0 <= i < |addString| + 1 {
      target[tmpLength - 1 + i] := (addString + [0])[i];
    }
    CellsSnoc(d, addString);
    var st := State(0, t, |Cells(d)|, true, []);
    WritePadded(st, Cells(d), addString + [0]);
    assert target[..] == Write(st, addString + [0]).target;
  }

  lemma AddedFits(fold: Fold, d: seq<Str>, add: Str, where_: Where)
    requires AllNoNul(d) && d != [] && NoNul(add)
    requires where_.After? ==> HasMatch(fold, d, where_.s)
    ensures var l := Inserted(fold, d, add, where_);
            l != [] && AllNoNul(l) && |Encode(l)| == |Encode(d)| + |add| + 1
  {
    match where_
    case AtStart =>
      assert ([add] + d)[1..] == d;
    case AtEnd =>
      CellsSnoc(d, add);
    case After(s) =>
      var k := InsertAfterExact(fold, d, s, add);
      InsertedCells(d[..k + 1], add, d[k + 1..]);
      assert d == d[..k + 1] + d[k + 1..];
  }

  lemma InsertedCells(l: seq<Str>, add: Str, r: seq<Str>)
    ensures |Cells(l + [add] + r)| == |Cells(l + r)| + |add| + 1
  {
    CellsAppend(l + [add], r);
    CellsSnoc(l, add);
    CellsAppend(l, r);
  }
}
