/** CliTableGen.cpp: from the text of a parameter list to the kind codes and the packed struct that
  the command line runtime works with. The emitted text is left out; its content is modelled. */
module CliTable {
  // ---- splitting ----

  /** The maximal runs without the separator. */
  function Tokens(s: string, sep: char): seq<string> {
    if s == [] then []
    else if s[0] == sep then Tokens(s[1..], sep)
    else
      var rest := Tokens(s[1..], sep);
      if |s| > 1 && s[1] != sep && rest != [] then [[s[0]] + rest[0]] + rest[1..] else [[s[0]]] + rest
  }

  function Joined(ts: seq<string>, sep: char): string {
    if ts == [] then [] else if |ts| == 1 then ts[0] else ts[0] + [sep] + Joined(ts[1..], sep)
  }

  predicate Token(t: string, sep: char) {
    t != [] && sep !in t
  }

  lemma {:induction false} TokensSkip(s: string, sep: char, b: nat)
    requires b <= |s| && forall i | 0 <= i < b :: s[i] == sep
    ensures Tokens(s, sep) == Tokens(s[b..], sep)
    decreases b
  {
    if b > 0 {
      TokensSkip(s[1..], sep, b - 1);
      assert s[1..][b - 1..] == s[b..];
    } else {
      assert s[0..] == s;
    }
  }

  lemma {:induction false} TokensTake(s: string, sep: char, e: nat)
    requires 0 < e <= |s| && (forall i | 0 <= i < e :: s[i] != sep) && (e < |s| ==> s[e] == sep)
    ensures Tokens(s, sep) == [s[..e]] + Tokens(s[e..], sep)
    decreases e
  {
    if e == 1 {
      assert s[..1] == [s[0]];
    } else {
      TokensTake(s[1..], sep, e - 1);
      assert s[1..][..e - 1] == s[1..e] && s[1..][e - 1..] == s[e..];
      assert s[..e] == [s[0]] + s[1..e];
    }
  }

  /** Splitting undoes joining, for any list of tokens. */
  lemma {:induction false} TokensJoined(ts: seq<string>, sep: char)
    requires forall i | 0 <= i < |ts| :: Token(ts[i], sep)
    ensures Tokens(Joined(ts, sep), sep) == ts
  {
    if |ts| == 1 {
      var s := ts[0];
      TokensTake(s, sep, |s|);
      assert s[..|s|] == s && s[|s|..] == [];
    } else if |ts| > 1 {
      var t, rest := ts[0], Joined(ts[1..], sep);
      var s := t + [sep] + rest;
      TokensTake(s, sep, |t|);
      assert s[..|t|] == t && s[|t|..][1..] == rest;
      TokensJoined(ts[1..], sep);
    }
  }

  lemma {:induction false} TokensAreTokens(s: string, sep: char)
    ensures forall i | 0 <= i < |Tokens(s, sep)| :: Token(Tokens(s, sep)[i], sep)
  {
    if s != [] {
      var rest := Tokens(s[1..], sep);
      TokensAreTokens(s[1..], sep);
      assert forall i | 0 <= i < |rest| :: Token(rest[i], sep);
    }
  }

  function FirstNotOf(s: string, sep: char, b: nat): (r: nat)
    requires b <= |s|
    ensures b <= r <= |s| && (forall i | b <= i < r :: s[i] == sep) && (r < |s| ==> s[r] != sep)
    decreases |s| - b
  {
    if b < |s| && s[b] == sep then FirstNotOf(s, sep, b + 1) else b
  }

  function FirstOf(s: string, sep: char, b: nat): (r: nat)
    requires b <= |s|
    ensures b <= r <= |s| && (forall i | b <= i < r :: s[i] != sep) && (r < |s| ==> s[r] == sep)
    decreases |s| - b
  {
    if b < |s| && s[b] != sep then FirstOf(s, sep, b + 1) else b
  }

  lemma SplitStep(s: string, sep: char, b: nat)
    requires b <= |s|
    ensures var b' := FirstNotOf(s, sep, b);
            if b' == |s| then Tokens(s[b..], sep) == []
            else var e := FirstOf(s, sep, b'); e > b' && Tokens(s[b..], sep) == [s[b'..e]] + Tokens(s[e..], sep)
  {
    var b' := FirstNotOf(s, sep, b);
    var u := s[b..];
    assert forall i | 0 <= i < b' - b :: u[i] == s[b + i];
    TokensSkip(u, sep, b' - b);
    assert u[b' - b..] == s[b'..];
    if b' < |s| {
      TakeStep(s, sep, b');
    }
  }

  lemma TakeStep(s: string, sep: char, b: nat)
    requires b < |s| && s[b] != sep
    ensures var e := FirstOf(s, sep, b); e > b && Tokens(s[b..], sep) == [s[b..e]] + Tokens(s[e..], sep)
  {
    var e, v := FirstOf(s, sep, b), s[b..];
    assert forall i | 0 <= i < |v| :: v[i] == s[b + i];
    TokensTake(v, sep, e - b);
    assert v[..e - b] == s[b..e];
    assert v[e - b..] == s[e..];
  }

  method Split(input: string, sep: char) returns (result: seq<string>)
    ensures result == Tokens(input, sep)
  {
    result := [];
    var b := 0;
    assert input[0..] == input;
    while true
      invariant b <= |input|
      invariant Tokens(input, sep) == result + Tokens(input[b..], sep)
      decreases |input| - b
    {
      SplitStep(input, sep, b);
      b := FirstNotOf(input, sep, b);
      if b == |input| {
        break;
      }
      var e := FirstOf(input, sep, b);
      result := result + [input[b..e]];
      b := e;
    }
  }

  // ---- parameters ----

  /** The parameters of a function, each split into its words. */
  function Words(funcParm: string): seq<seq<string>> {
    var ps := Tokens(funcParm, ',');
    seq(|ps|, i requires 0 <= i < |ps| => Tokens(ps[i], ' '))
  }

  const VAR_TYPES: seq<string> :=
    ["INT8", "UINT8", "INT16", "UINT16", "INT32", "UINT32", "INT64", "UINT64", "char*", "CMD_LINE"]

  /** The table of kinds of the runtime (CliRuntimeLib.cpp); `text` stands for the format "%s". */
  datatype VarKind = VarKind(name: string, size: nat, text: bool)

  /** sizeof, for the types a field can have, in a 64-bit build. */
  function SizeOf(type_: string): nat {
    if type_ == "INT8" || type_ == "UINT8" then 1
    else if type_ == "INT16" || type_ == "UINT16" then 2
    else if type_ == "INT32" || type_ == "UINT32" then 4
    else if type_ == "INT64" || type_ == "UINT64" || type_ == "char*" then 8
    else 0
  }

  const VAR_KINDS: seq<VarKind> := [
    VarKind("INT8", 1, false), VarKind("UINT8", 1, false), VarKind("INT16", 2, false), VarKind("UINT16", 2, false),
    VarKind("INT32", 4, false), VarKind("UINT32", 4, false), VarKind("INT64", 8, false), VarKind("UINT64", 8, false),
    VarKind("char*", 8, true), VarKind("CMD_LINE", 0, false)]

  const CMD_LINE_KIND := 10

  /** The same type has the same place in the two tables, and the size of its field. */
  lemma TablesAgree(i: nat)
    requires i < |VAR_TYPES|
    ensures |VAR_KINDS| == |VAR_TYPES| && VAR_KINDS[i].name == VAR_TYPES[i] && VAR_KINDS[i].size == SizeOf(VAR_TYPES[i])
    ensures forall j | 0 <= j < |VAR_TYPES| && j != i :: VAR_TYPES[j] != VAR_TYPES[i]
  {
    assert forall j | 0 <= j < 9 :: |VAR_TYPES[j]| == |VAR_TYPES[i]| && j != i ==>
      VAR_TYPES[j][0] != VAR_TYPES[i][0] || VAR_TYPES[j][|VAR_TYPES[j]| - 1] != VAR_TYPES[i][|VAR_TYPES[i]| - 1];
  }

  method GetNumOfVars(type_: string) returns (n: nat)
    ensures n < |VAR_TYPES|
    ensures type_ in VAR_TYPES ==> VAR_TYPES[n] == type_
    ensures type_ !in VAR_TYPES ==> n == 0
  {
    for i := 0 to |VAR_TYPES|
      invariant forall j | 0 <= j < i :: VAR_TYPES[j] != type_
    {
      if type_ == VAR_TYPES[i] {
        return i;
      }
    }
    return 0;
  }

  /** What the generator accepts: "INT8" has number 0, the number that stands for unknown types. */
  predicate Accepted(ps: seq<seq<string>>) {
    forall i | 0 <= i < |ps| ::
      && |ps[i]| == 2 && ps[i][0] in VAR_TYPES && ps[i][0] != "INT8"
      && (ps[i][0] == "CMD_LINE" ==> |ps| == 1)
  }

  /** The accepted lists, type by type. */
  lemma AcceptedExactly(ps: seq<seq<string>>)
    ensures Accepted(ps)
            <==> forall i | 0 <= i < |ps| ::
                   && |ps[i]| == 2
                   && (|| ps[i][0] in {"UINT8", "INT16", "UINT16", "INT32", "UINT32", "INT64", "UINT64", "char*"}
                       || (ps[i][0] == "CMD_LINE" && |ps| == 1))
  {
    forall t: string
      ensures t in VAR_TYPES && t != "INT8"
              <==> t in {"UINT8", "INT16", "UINT16", "INT32", "UINT32", "INT64", "UINT64", "char*"} || t == "CMD_LINE" {
      if t in VAR_TYPES {
        var i :| 0 <= i < |VAR_TYPES| && VAR_TYPES[i] == t;
      } else {
        assert VAR_TYPES[0] == "INT8" && VAR_TYPES[1] == "UINT8" && VAR_TYPES[2] == "INT16" && VAR_TYPES[3] == "UINT16"
               && VAR_TYPES[4] == "INT32" && VAR_TYPES[5] == "UINT32" && VAR_TYPES[6] == "INT64"
               && VAR_TYPES[7] == "UINT64" && VAR_TYPES[8] == "char*" && VAR_TYPES[9] == "CMD_LINE";
      }
    }
  }

  predicate CodesFor(ps: seq<seq<string>>, kinds: seq<nat>) {
    if ps == [] then kinds == [0]
    else
      && |kinds| == |ps|
      && forall i | 0 <= i < |ps| :: |ps[i]| == 2 && 2 <= kinds[i] <= |VAR_TYPES| && VAR_TYPES[kinds[i] - 1] == ps[i][0]
  }

  method CreateParamsVarTypeTableArray(funcParm: string) returns (ok: bool, kinds: seq<nat>)
    ensures ok <==> Accepted(Words(funcParm))
    ensures ok ==> CodesFor(Words(funcParm), kinds)
  {
    ghost var ps := Words(funcParm);
    kinds := [];
    var parameters := Split(funcParm, ',');
    if |parameters| == 0 {
      return true, [0];
    }
    for i := 0 to |parameters|
      invariant |kinds| == i
      invariant forall j | 0 <= j < i ::
        && |ps[j]| == 2 && 2 <= kinds[j] <= |VAR_TYPES| && VAR_TYPES[kinds[j] - 1] == ps[j][0]
        && ps[j][0] != "INT8" && (ps[j][0] == "CMD_LINE" ==> |ps| == 1)
    {
      var par := Split(parameters[i], ' ');
      assert par == ps[i];
      if |par| != 2 {
        return false, [];
      }
      var number := GetNumOfVars(par[0]);
      if number == 0 {
        assert VAR_TYPES[0] == "INT8";
        return false, [];
      }
      if par[0] == "CMD_LINE" {
        if |parameters| > 1 {
          return false, [];
        }
      }
      TablesAgree(number);
      kinds := kinds + [number + 1];
    }
    return true, kinds;
  }

  datatype Field = Field(type_: string, name: string)

  /** `Broken`: the first word of a parameter without words is read. */
  datatype Struct = NoStruct | Broken | Rejected | Fields(fields: seq<Field>)

  method CreateFunctiosWrappersVars(parameters: seq<string>) returns (r: Struct)
    ensures r.NoStruct? <==> parameters == []
    ensures r.Broken? <==> parameters != [] && Tokens(parameters[0], ' ') == []
    ensures r.Fields? ==> if Tokens(parameters[0], ' ')[0] == "CMD_LINE" then r.fields == [Field("Arguments", "arg1")]
                          else && |r.fields| == |parameters|
                               && forall i | 0 <= i < |parameters| ::
                                    Tokens(parameters[i], ' ') == [r.fields[i].type_, r.fields[i].name]
    ensures r.Rejected? ==> exists i :: 0 <= i < |parameters| && |Tokens(parameters[i], ' ')| != 2
  {
    if |parameters| == 0 {
      return NoStruct;
    }
    var par := Split(parameters[0], ' ');
    if |par| == 0 {
      return Broken;
    }
    if par[0] == "CMD_LINE" {
      return Fields([Field("Arguments", "arg1")]);
    }
    var fields: seq<Field> := [];
    for i := 0 to |parameters|
      invariant |fields| == i
      invariant forall j | 0 <= j < i :: Tokens(parameters[j], ' ') == [fields[j].type_, fields[j].name]
    {
      par := Split(parameters[i], ' ');
      if |par| != 2 {
        return Rejected;
      }
      fields := fields + [Field(par[0], par[1])];
    }
    return Fields(fields);
  }

  // ---- the struct and the codes ----

  function Offset(widths: seq<nat>, i: nat): nat
    requires i <= |widths|
  {
    if i == 0 then 0 else Offset(widths, i - 1) + widths[i - 1]
  }

  function FieldWidths(fields: seq<Field>): seq<nat> {
    seq(|fields|, i requires 0 <= i < |fields| => SizeOf(fields[i].type_))
  }

  /** The offset of field `i` of a struct packed to one byte. */
  function FieldOffset(fields: seq<Field>, i: nat): nat
    requires i <= |fields|
  {
    Offset(FieldWidths(fields), i)
  }

  predicate Codes(kinds: seq<nat>) {
    forall i | 0 <= i < |kinds| :: 1 <= kinds[i] < CMD_LINE_KIND
  }

  function KindWidths(kinds: seq<nat>): seq<nat>
    requires Codes(kinds)
  {
    seq(|kinds|, i requires 0 <= i < |kinds| => VAR_KINDS[kinds[i] - 1].size)
  }

  /** Where the runtime writes value `i`: behind the sizes of the kinds before. */
  function WriteOffset(kinds: seq<nat>, i: nat): nat
    requires Codes(kinds) && i <= |kinds|
  {
    Offset(KindWidths(kinds), i)
  }

  ghost predicate Emitted(ps: seq<seq<string>>, fields: seq<Field>, kinds: seq<nat>) {
    && CodesFor(ps, kinds) && |fields| == |ps|
    && forall i | 0 <= i < |ps| :: |ps[i]| == 2 && fields[i] == Field(ps[i][0], ps[i][1])
  }

  predicate Ordinary(ps: seq<seq<string>>) {
    Accepted(ps) && ps != [] && ps[0][0] != "CMD_LINE"
  }

  /** The code of a parameter indexes the runtime's entry of the same name, and its size. */
  lemma KindOfField(ps: seq<seq<string>>, fields: seq<Field>, kinds: seq<nat>, i: nat)
    requires Ordinary(ps) && Emitted(ps, fields, kinds) && i < |ps|
    ensures 1 <= kinds[i] < CMD_LINE_KIND
    ensures VAR_KINDS[kinds[i] - 1].name == fields[i].type_ && VAR_KINDS[kinds[i] - 1].size == SizeOf(fields[i].type_)
  {
    TablesAgree(kinds[i] - 1);
    assert ps[i][0] == "CMD_LINE" ==> |ps| == 1 && i == 0;
    assert VAR_TYPES[9] == "CMD_LINE";
  }

  /** For an ordinary parameter list the codes name the kinds of the fields, and the runtime writes
      each value exactly onto its field; the last write ends where the struct ends. */
  lemma OffsetsAgree(ps: seq<seq<string>>, fields: seq<Field>, kinds: seq<nat>, i: nat)
    requires Ordinary(ps) && Emitted(ps, fields, kinds) && i <= |fields|
    ensures Codes(kinds)
    ensures WriteOffset(kinds, i) == FieldOffset(fields, i)
  {
    forall j | 0 <= j < |kinds|
      ensures 1 <= kinds[j] < CMD_LINE_KIND && VAR_KINDS[kinds[j] - 1].size == SizeOf(fields[j].type_) {
      KindOfField(ps, fields, kinds, j);
    }
    assert KindWidths(kinds) == FieldWidths(fields);
  }

  /** The wrapper's struct and the table of one function, in the order of MakeParserFileData. */
  method CreateParserEntry(funcParm: string) returns (ok: bool, s: Struct, kinds: seq<nat>)
    ensures ok <==> Accepted(Words(funcParm))
    ensures ok ==> |kinds| >= 1
    ensures ok && Words(funcParm) == [] ==> s.NoStruct? && kinds == [0]
    ensures ok && Ordinary(Words(funcParm)) ==> s.Fields? && Emitted(Words(funcParm), s.fields, kinds)
    ensures ok && Words(funcParm) != [] && Words(funcParm)[0][0] == "CMD_LINE" ==>
              s == Fields([Field("Arguments", "arg1")]) && kinds == [CMD_LINE_KIND]
  {
    ghost var ps := Words(funcParm);
    var parameters := Split(funcParm, ',');
    s := CreateFunctiosWrappersVars(parameters);
    ok, kinds := CreateParamsVarTypeTableArray(funcParm);
    if ok {
      assert |ps| == |parameters| && forall i | 0 <= i < |ps| :: ps[i] == Tokens(parameters[i], ' ');
      if ps != [] && ps[0][0] == "CMD_LINE" {
        TablesAgree(9);
        assert VAR_TYPES[kinds[0] - 1] == VAR_TYPES[9];
      }
    }
  }

  /** "INT8" is a type of the runtime, but no parameter of that type is accepted. */
  lemma Int8Refused(ps: seq<seq<string>>, i: nat)
    requires i < |ps| && |ps[i]| == 2 && ps[i][0] == "INT8"
    ensures VAR_KINDS[0].name == ps[i][0] && !Accepted(ps)
  {
  }

  /** A parameter list of blanks has one parameter without words, whose first word is read. */
  lemma BlankParameterBreaks()
    ensures Tokens(" ", ',') == [" "] && Tokens(" ", ' ') == []
  {
    assert " "[1..] == "";
  }
}
