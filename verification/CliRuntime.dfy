/** CliRuntimeLib.cpp, ProcessParameters: the arguments of a command are written into its packed
  struct, kind by kind. */
module CliRuntime {
  import opened Wrappers
  import opened CliTable

  type byte = b: int | 0 <= b < 256

  /** sscanf with one kind's format and "%n": the number of values read, of characters read, and
      the bytes of the value. */
  datatype Scan = Scan(err: int, n: nat, bytes: seq<byte>)

  type Scanner = (nat, string) -> Scan

  /** The bytes of a pointer to an argument. */
  type Pointer = nat -> seq<byte>

  ghost predicate SizesOk(scan: Scanner, ptr: Pointer) {
    && (forall k: nat, a: string | 1 <= k < CMD_LINE_KIND && scan(k, a).err == 1 ::
          |scan(k, a).bytes| == VAR_KINDS[k - 1].size)
    && (forall i :: |ptr(i)| == 8)
  }

  datatype Func = Func(name: string, kinds: seq<nat>, hidden: bool, hasExtraParams: bool)
  {
    function numParams(): nat {
      |kinds|
    }
  }

  /** The parameter is read completely. */
  predicate Parses(scan: Scanner, kind: nat, arg: string)
    requires 1 <= kind < CMD_LINE_KIND
  {
    VAR_KINDS[kind - 1].text || (scan(kind, arg).err == 1 && scan(kind, arg).n != 0 && scan(kind, arg).n == |arg|)
  }

  function Value(scan: Scanner, ptr: Pointer, kind: nat, argv: seq<string>, i: nat): seq<byte>
    requires 1 <= kind < CMD_LINE_KIND && i < |argv|
  {
    if VAR_KINDS[kind - 1].text then ptr(i) else scan(kind, argv[i]).bytes
  }

  function Concat(vs: seq<seq<byte>>, i: nat): seq<byte>
    requires i <= |vs|
  {
    if i == 0 then [] else Concat(vs, i - 1) + vs[i - 1]
  }

  lemma {:induction false} ConcatSize(vs: seq<seq<byte>>, widths: seq<nat>, i: nat)
    requires i <= |vs| == |widths| && forall j | 0 <= j < i :: |vs[j]| == widths[j]
    ensures |Concat(vs, i)| == Offset(widths, i)
  {
    if i > 0 {
      ConcatSize(vs, widths, i - 1);
    }
  }

  lemma SliceBefore(a: seq<byte>, b: seq<byte>, lo: nat, hi: nat)
    requires lo <= hi <= |a|
    ensures (a + b)[lo..hi] == a[lo..hi]
  {
  }

  /** Each part of a concatenation stands behind the widths of the parts before it. */
  lemma {:induction false} ConcatAt(vs: seq<seq<byte>>, widths: seq<nat>, i: nat, n: nat)
    requires i < n <= |vs| == |widths| && forall j | 0 <= j < n :: |vs[j]| == widths[j]
    ensures Offset(widths, i) <= Offset(widths, i + 1) <= |Concat(vs, n)|
    ensures Concat(vs, n)[Offset(widths, i)..Offset(widths, i + 1)] == vs[i]
  {
    ConcatSize(vs, widths, n - 1);
    if i < n - 1 {
      ConcatAt(vs, widths, i, n - 1);
      var a, b := Offset(widths, i), Offset(widths, i + 1);
      SliceBefore(Concat(vs, n - 1), vs[n - 1], a, b);
    }
  }

  function ValueList(scan: Scanner, ptr: Pointer, kinds: seq<nat>, argv: seq<string>): seq<seq<byte>>
    requires Codes(kinds) && |kinds| + 2 <= |argv|
  {
    seq(|kinds|, i requires 0 <= i < |kinds| => Value(scan, ptr, kinds[i], argv, i + 2))
  }

  /** The values of the first `i` parameters, one behind the other. */
  function Values(scan: Scanner, ptr: Pointer, kinds: seq<nat>, argv: seq<string>, i: nat): seq<byte>
    requires Codes(kinds) && i <= |kinds| && |kinds| + 2 <= |argv|
  {
    Concat(ValueList(scan, ptr, kinds, argv), i)
  }

  lemma ValueSizes(scan: Scanner, ptr: Pointer, kinds: seq<nat>, argv: seq<string>, n: nat,
                   vs: seq<seq<byte>>, widths: seq<nat>)
    requires Codes(kinds) && n <= |kinds| && |kinds| + 2 <= |argv| && SizesOk(scan, ptr)
    requires ParsesUpTo(scan, kinds, argv, n)
    requires vs == ValueList(scan, ptr, kinds, argv) && widths == KindWidths(kinds)
    ensures |vs| == |widths| == |kinds| && forall j | 0 <= j < n :: |vs[j]| == widths[j]
  {
    forall j | 0 <= j < n ensures |vs[j]| == widths[j] {
      assert Parses(scan, kinds[j], argv[j + 2]);
      if VAR_KINDS[kinds[j] - 1].text {
        TextKind(kinds[j]);
      }
    }
  }

  lemma ValuesSize(scan: Scanner, ptr: Pointer, kinds: seq<nat>, argv: seq<string>, i: nat)
    requires Codes(kinds) && i <= |kinds| && |kinds| + 2 <= |argv| && SizesOk(scan, ptr)
    requires ParsesUpTo(scan, kinds, argv, i)
    ensures |Values(scan, ptr, kinds, argv, i)| == WriteOffset(kinds, i)
  {
    var vs, widths := ValueList(scan, ptr, kinds, argv), KindWidths(kinds);
    ValueSizes(scan, ptr, kinds, argv, i, vs, widths);
    ConcatSize(vs, widths, i);
  }

  lemma {:induction false} OffsetsGrow(widths: seq<nat>, i: nat, j: nat)
    requires i <= j <= |widths|
    ensures Offset(widths, i) <= Offset(widths, j)
  {
    if i < j {
      OffsetsGrow(widths, i, j - 1);
    }
  }

  /** A row of a generated table. */
  predicate Generated(cmd: Func) {
    cmd.kinds == [0] || cmd.kinds == [CMD_LINE_KIND] || (|cmd.kinds| >= 1 && Codes(cmd.kinds))
  }

  predicate ParsesUpTo(scan: Scanner, kinds: seq<nat>, argv: seq<string>, n: nat)
    requires Codes(kinds) && n <= |kinds| && n + 2 <= |argv|
  {
    forall j | 0 <= j < n :: Parses(scan, kinds[j], argv[j + 2])
  }

  lemma ParsesNext(scan: Scanner, kinds: seq<nat>, argv: seq<string>, n: nat)
    requires Codes(kinds) && n < |kinds| && n + 2 < |argv|
    ensures ParsesUpTo(scan, kinds, argv, n + 1) <==>
              ParsesUpTo(scan, kinds, argv, n) && Parses(scan, kinds[n], argv[n + 2])
  {
  }

  /** Exactly when the arguments fit the command; `argv` starts with the program and the command. */
  predicate Fits(scan: Scanner, cmd: Func, argv: seq<string>)
    requires Generated(cmd)
  {
    var args := |argv| - 2;
    if cmd.kinds == [CMD_LINE_KIND] then true
    else if cmd.kinds == [0] then args == 0
    else
      && args >= |cmd.kinds|
      && ParsesUpTo(scan, cmd.kinds, argv, |cmd.kinds|)
      && (args == |cmd.kinds| || cmd.hasExtraParams)
  }

  /** memcpy, or the store of sscanf, to a place inside the struct. */
  method WriteValue(params: array<byte>, at: nat, bytes: seq<byte>)
    requires at + |bytes| <= params.Length
    modifies params
    ensures params[..][..at + |bytes|] == old(params[..])[..at] + bytes
  {
    forall k | 0 <= k < |bytes| {
      params[at + k] := bytes[k];
    }
  }

  /** One turn of the loop: the value of argument `i + 2` goes to offset `at`. */
  method WriteParameter(scan: Scanner, ptr: Pointer, params: array<byte>, code: nat, arg: string, i: nat, at: nat)
    returns (ok: bool)
    requires 1 <= code < CMD_LINE_KIND && SizesOk(scan, ptr)
    requires at + VAR_KINDS[code - 1].size <= params.Length
    modifies params
    ensures ok <==> Parses(scan, code, arg)
    ensures ok ==> var v := if VAR_KINDS[code - 1].text then ptr(i) else scan(code, arg).bytes;
                   |v| == VAR_KINDS[code - 1].size && params[..][..at + |v|] == old(params[..])[..at] + v
  {
    var kind := VAR_KINDS[code - 1];
    if kind.text {
      TextKind(code);
      WriteValue(params, at, ptr(i));
      return true;
    }
    var r := scan(code, arg);
    if r.err != 1 || r.n == 0 {
      return false;
    }
    WriteValue(params, at, r.bytes);
    return r.n == |arg|;
  }

  lemma TextKind(code: nat)
    requires 1 <= code < CMD_LINE_KIND && VAR_KINDS[code - 1].text
    ensures VAR_KINDS[code - 1].size == 8
  {
  }

  /** The first `i` parameters have been read completely and stand at the start of the struct. */
  ghost predicate Written(scan: Scanner, ptr: Pointer, params: seq<byte>, kinds: seq<nat>, argv: seq<string>, i: nat) {
    && Codes(kinds) && i <= |kinds| && |kinds| + 2 <= |argv| && |params| == WriteOffset(kinds, |kinds|)
    && ParsesUpTo(scan, kinds, argv, i)
    && Values(scan, ptr, kinds, argv, i) <= params
  }

  lemma WrittenNext(scan: Scanner, ptr: Pointer, before: seq<byte>, after: seq<byte>, kinds: seq<nat>,
                    argv: seq<string>, i: nat, v: seq<byte>)
    requires Written(scan, ptr, before, kinds, argv, i) && i < |kinds| && SizesOk(scan, ptr)
    requires Parses(scan, kinds[i], argv[i + 2]) && v == Value(scan, ptr, kinds[i], argv, i + 2)
    requires var at := WriteOffset(kinds, i);
             |after| == |before| && at + |v| <= |after| && after[..at + |v|] == before[..at] + v
    ensures Written(scan, ptr, after, kinds, argv, i + 1)
  {
    ParsesNext(scan, kinds, argv, i);
    ValuesSize(scan, ptr, kinds, argv, i);
    assert before[..WriteOffset(kinds, i)] == Values(scan, ptr, kinds, argv, i);
  }

  lemma Room(kinds: seq<nat>, i: nat)
    requires Codes(kinds) && i < |kinds|
    ensures WriteOffset(kinds, i) + VAR_KINDS[kinds[i] - 1].size == WriteOffset(kinds, i + 1) <= WriteOffset(kinds, |kinds|)
  {
    OffsetsGrow(KindWidths(kinds), i + 1, |kinds|);
  }

  /** One turn on the struct as a whole; the value fills it from `at` to the returned offset. */
  method WriteNext(scan: Scanner, ptr: Pointer, params: array<byte>, kinds: seq<nat>, argv: seq<string>, i: nat, at: nat)
    returns (ok: bool, next: nat)
    requires SizesOk(scan, ptr) && Written(scan, ptr, params[..], kinds, argv, i) && i < |kinds|
    requires at == WriteOffset(kinds, i)
    modifies params
    ensures ok <==> Parses(scan, kinds[i], argv[i + 2])
    ensures ok ==> next == WriteOffset(kinds, i + 1) && Written(scan, ptr, params[..], kinds, argv, i + 1)
  {
    Room(kinds, i);
    ghost var before := params[..];
    ok := WriteParameter(scan, ptr, params, kinds[i], argv[i + 2], i + 2, at);
    next := at + VAR_KINDS[kinds[i] - 1].size;
    if ok {
      WrittenNext(scan, ptr, before, params[..], kinds, argv, i, Value(scan, ptr, kinds[i], argv, i + 2));
    }
  }

  /** The loop of ProcessParameters up to the last parameter. */
  method WriteParameters(scan: Scanner, ptr: Pointer, params: array<byte>, kinds: seq<nat>, argv: seq<string>)
    returns (ok: bool)
    requires Codes(kinds) && |kinds| + 2 <= |argv| && SizesOk(scan, ptr)
    requires params.Length == WriteOffset(kinds, |kinds|)
    modifies params
    ensures ok <==> ParsesUpTo(scan, kinds, argv, |kinds|)
    ensures ok ==> params[..] == Values(scan, ptr, kinds, argv, |kinds|)
  {
    var at := 0;
    for i := 0 to |kinds|
      invariant at == WriteOffset(kinds, i)
      invariant Written(scan, ptr, params[..], kinds, argv, i)
    {
      var read;
      read, at := WriteNext(scan, ptr, params, kinds, argv, i, at);
      if !read {
        return false;
      }
    }
    ValuesSize(scan, ptr, kinds, argv, |kinds|);
    return true;
  }

  /** A pointer takes any argument; of any other kind the scan has read one value, from at least one
      character, and all characters of the argument. */
  predicate ReadWhole(scan: Scanner, kind: nat, arg: string)
    requires 1 <= kind < CMD_LINE_KIND
  {
    VAR_KINDS[kind - 1].name == "char*" || (scan(kind, arg).err == 1 && scan(kind, arg).n == |arg| && |arg| > 0)
  }

  lemma TextIsPointer(kind: nat)
    requires 1 <= kind < CMD_LINE_KIND
    ensures VAR_KINDS[kind - 1].text <==> VAR_KINDS[kind - 1].name == "char*"
  {
    var t := VAR_KINDS[kind - 1].name;
    assert kind != 9 ==> t != "char*" by {
      assert t == "char*" ==> t[0] == 'c';
    }
  }

  lemma ParsesExactly(scan: Scanner, kinds: seq<nat>, argv: seq<string>)
    requires Codes(kinds) && |kinds| + 2 <= |argv|
    ensures ParsesUpTo(scan, kinds, argv, |kinds|) <==> forall j | 0 <= j < |kinds| :: ReadWhole(scan, kinds[j], argv[j + 2])
  {
    forall j | 0 <= j < |kinds| ensures Parses(scan, kinds[j], argv[j + 2]) <==> ReadWhole(scan, kinds[j], argv[j + 2]) {
      TextIsPointer(kinds[j]);
    }
  }

  /** ProcessParameters, apart from SetCurrentArgsNumParams. For CMD_LINE the struct is the pair of
      the argument count and vector, returned here in `cmdLine`. */
  method ProcessParameters(scan: Scanner, ptr: Pointer, params: array<byte>, cmd: Func, argv: seq<string>)
    returns (ok: bool, cmdLine: Option<seq<string>>)
    requires Generated(cmd) && |argv| >= 2 && SizesOk(scan, ptr)
    requires Codes(cmd.kinds) ==> params.Length == WriteOffset(cmd.kinds, |cmd.kinds|)
    modifies params
    ensures ok <==> Fits(scan, cmd, argv)
    ensures cmd.kinds == [0] ==> (ok <==> |argv| == 2)
    ensures cmd.kinds == [10] ==> ok
    ensures Codes(cmd.kinds) ==>
              (ok <==> && |argv| >= |cmd.kinds| + 2 && (|argv| == |cmd.kinds| + 2 || cmd.hasExtraParams)
                       && forall j | 0 <= j < |cmd.kinds| :: ReadWhole(scan, cmd.kinds[j], argv[j + 2]))
    ensures ok && cmd.kinds == [CMD_LINE_KIND] ==> cmdLine == Some(argv)
    ensures ok && Codes(cmd.kinds) ==>
              |cmd.kinds| + 2 <= |argv| && params[..] == Values(scan, ptr, cmd.kinds, argv, |cmd.kinds|)
  {
    cmdLine := None;
    if Codes(cmd.kinds) && |argv| >= |cmd.kinds| + 2 {
      ParsesExactly(scan, cmd.kinds, argv);
    }
    if cmd.kinds[0] == CMD_LINE_KIND {
      return true, Some(argv);
    }
    var argc := |argv| - 2;
    if cmd.kinds[0] == 0 {
      return argc == 0, None;
    }
    if argc < |cmd.kinds| {
      return false, None;
    }
    ok := WriteParameters(scan, ptr, params, cmd.kinds, argv);
    if !ok {
      return false, None;
    }
    return argc == |cmd.kinds| || cmd.hasExtraParams, None;
  }

  // ---- the two programs together ----

  /** Every table row that the generator emits is one that the runtime can interpret. */
  lemma AcceptedIsGenerated(ps: seq<seq<string>>, cmd: Func)
    requires Accepted(ps) && CodesFor(ps, cmd.kinds)
    ensures Generated(cmd)
    ensures ps == [] <==> cmd.kinds == [0]
    ensures ps != [] && ps[0][0] == "CMD_LINE" <==> cmd.kinds == [CMD_LINE_KIND]
  {
    forall i | 0 <= i < |ps| ensures 2 <= cmd.kinds[i] <= CMD_LINE_KIND
      && (cmd.kinds[i] == CMD_LINE_KIND <==> ps[i][0] == "CMD_LINE") {
      TablesAgree(cmd.kinds[i] - 1);
    }
  }

  /** Each value stands at its own write offset. */
  lemma ValueAt(scan: Scanner, ptr: Pointer, kinds: seq<nat>, argv: seq<string>, i: nat)
    requires Codes(kinds) && i < |kinds| && |kinds| + 2 <= |argv| && SizesOk(scan, ptr)
    requires ParsesUpTo(scan, kinds, argv, |kinds|)
    ensures WriteOffset(kinds, i) <= WriteOffset(kinds, i + 1) <= |Values(scan, ptr, kinds, argv, |kinds|)|
    ensures Values(scan, ptr, kinds, argv, |kinds|)[WriteOffset(kinds, i)..WriteOffset(kinds, i + 1)]
         == Value(scan, ptr, kinds[i], argv, i + 2)
  {
    var vs, widths := ValueList(scan, ptr, kinds, argv), KindWidths(kinds);
    ValueSizes(scan, ptr, kinds, argv, |kinds|, vs, widths);
    ConcatAt(vs, widths, i, |kinds|);
    assert WriteOffset(kinds, i) == Offset(widths, i) && WriteOffset(kinds, i + 1) == Offset(widths, i + 1);
    assert vs[i] == Value(scan, ptr, kinds[i], argv, i + 2);
  }

  lemma FieldsHoldValues(scan: Scanner, ptr: Pointer, ps: seq<seq<string>>, fields: seq<Field>, kinds: seq<nat>,
                         argv: seq<string>, params: seq<byte>, i: nat)
    requires Ordinary(ps) && Emitted(ps, fields, kinds) && SizesOk(scan, ptr) && i < |fields|
    requires Codes(kinds) && |kinds| + 2 <= |argv| && ParsesUpTo(scan, kinds, argv, |kinds|)
    requires params == Values(scan, ptr, kinds, argv, |kinds|)
    ensures |params| == FieldOffset(fields, |fields|)
    ensures FieldOffset(fields, i) <= FieldOffset(fields, i + 1) <= |params|
    ensures params[FieldOffset(fields, i)..FieldOffset(fields, i + 1)]
         == Value(scan, ptr, kinds[i], argv, i + 2)
  {
    var lo, hi := WriteOffset(kinds, i), WriteOffset(kinds, i + 1);
    assert lo == FieldOffset(fields, i) by { OffsetsAgree(ps, fields, kinds, i); }
    assert hi == FieldOffset(fields, i + 1) by { OffsetsAgree(ps, fields, kinds, i + 1); }
    assert |params| == FieldOffset(fields, |fields|) by {
      OffsetsAgree(ps, fields, kinds, |fields|);
      ValuesSize(scan, ptr, kinds, argv, |kinds|);
    }
    assert lo <= hi <= |params| && params[lo..hi] == Value(scan, ptr, kinds[i], argv, i + 2) by {
      ValueAt(scan, ptr, kinds, argv, i);
    }
  }

  /** For an ordinary parameter list that the generator accepts, a struct that the runtime has filled
      from all arguments holds, field by field, what was read from the arguments, and nothing else. */
  lemma FieldsHoldArguments(scan: Scanner, ptr: Pointer, ps: seq<seq<string>>, fields: seq<Field>, kinds: seq<nat>,
                            argv: seq<string>, params: seq<byte>, i: nat)
    requires Ordinary(ps) && Emitted(ps, fields, kinds) && SizesOk(scan, ptr) && i < |fields|
    requires Codes(kinds) && |kinds| + 2 <= |argv| && ParsesUpTo(scan, kinds, argv, |kinds|)
    requires params == Values(scan, ptr, kinds, argv, |kinds|)
    ensures |params| == FieldOffset(fields, |fields|)
    ensures FieldOffset(fields, i) <= FieldOffset(fields, i + 1) <= |params|
    ensures params[FieldOffset(fields, i)..FieldOffset(fields, i + 1)]
         == if fields[i].type_ == "char*" then ptr(i + 2) else scan(kinds[i], argv[i + 2]).bytes
  {
    FieldsHoldValues(scan, ptr, ps, fields, kinds, argv, params, i);
    ValueOfField(scan, ptr, ps, fields, kinds, argv, i);
  }

  lemma ValueOfField(scan: Scanner, ptr: Pointer, ps: seq<seq<string>>, fields: seq<Field>, kinds: seq<nat>,
                     argv: seq<string>, i: nat)
    requires Ordinary(ps) && Emitted(ps, fields, kinds) && i < |fields| && |kinds| + 2 <= |argv| && Codes(kinds)
    ensures Value(scan, ptr, kinds[i], argv, i + 2)
         == if fields[i].type_ == "char*" then ptr(i + 2) else scan(kinds[i], argv[i + 2]).bytes
  {
    KindOfField(ps, fields, kinds, i);
    TextIsPointer(kinds[i]);
  }
}
