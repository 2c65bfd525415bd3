/** What a multi-string is, and what its parse, its filter and its insertion mean, on values.

  A multi-string is a list of NUL-terminated strings in one buffer, closed by one more NUL.
  `Parse` reads a buffer exactly as the parse loop of MultiStringUtils.cpp does; `Encode` is
  the layout. The lemmas say that the two are inverse to each other. */
module MultiStringSpec {
  // One WCHAR.
  type WChar = c: int | 0 <= c < 0x1_0000

  type Str = seq<WChar>

  // The case folding that _wcsicmp applies to each character. It depends on the locale.
  type Fold = WChar -> WChar

  predicate NoNul(s: Str) {
    0 !in s
  }

  predicate AllNoNul(ss: seq<Str>) {
    forall i | 0 <= i < |ss| :: NoNul(ss[i])
  }

  /** The lists a parse can deliver: only the first string may be empty. */
  predicate Parsable(ss: seq<Str>) {
    |ss| > 0 && AllNoNul(ss) && forall i | 1 <= i < |ss| :: ss[i] != []
  }

  /** The empty multi-string (two NULs), or a list of non-empty strings. */
  predicate Canonical(ss: seq<Str>) {
    Parsable(ss) && (ss == [[]] || ss[0] != [])
  }

  function Cells(ss: seq<Str>): seq<WChar> {
    if ss == [] then [] else ss[0] + [0] + Cells(ss[1..])
  }

  function Encode(ss: seq<Str>): seq<WChar> {
    Cells(ss) + [0]
  }

  /** wcslen: the first NUL at or after `p`, or the end of the allocation when there is none. */
  function FirstNul(cells: seq<WChar>, p: nat): (k: nat)
    requires p <= |cells|
    ensures p <= k <= |cells|
    ensures 0 !in cells[p..k]
    ensures k < |cells| ==> cells[k] == 0
    decreases |cells| - p
  {
    if p == |cells| || cells[p] == 0 then p
    else
      var k := FirstNul(cells, p + 1);
      assert cells[p..k] == [cells[p]] + cells[p + 1..k];
      k
  }

  /** The outcome of a parse, with the strings that were handed to the callback. */
  datatype Scan =
    | OutOfBounds                   // a read past the end of the allocation
    | Rejected(calls: seq<Str>)     // the length limit was reached
    | Accepted(calls: seq<Str>)
  {
    function Prepend(s: Str): Scan {
      match this
      case OutOfBounds => OutOfBounds
      case Rejected(calls) => Rejected([s] + calls)
      case Accepted(calls) => Accepted([s] + calls)
    }
  }

  /** The parse from offset `p`; `max == 0` means that there is no limit. */
  function Parse(cells: seq<WChar>, p: nat, max: nat): Scan
    requires p <= |cells|
    decreases |cells| - p
  {
    var k := FirstNul(cells, p);
    if k == |cells| then OutOfBounds
    else if max != 0 && k + 1 >= max then Rejected([])
    else if k + 1 == |cells| then OutOfBounds
    else if cells[k + 1] == 0 then Accepted([cells[p..k]])
    else Parse(cells, k + 1, max).Prepend(cells[p..k])
  }

  predicate WellFormed(cells: seq<WChar>) {
    Parse(cells, 0, 0).Accepted?
  }

  function Strings(cells: seq<WChar>): seq<Str>
    requires WellFormed(cells)
  {
    Parse(cells, 0, 0).calls
  }

  // ---- layout ----

  lemma {:induction false} CellsAppend(a: seq<Str>, b: seq<Str>)
    ensures Cells(a + b) == Cells(a) + Cells(b)
  {
    if a == [] {
      assert a + b == b;
    } else {
      CellsAppend(a[1..], b);
      assert (a + b)[1..] == a[1..] + b;
    }
  }

  lemma CellsSingle(s: Str)
    ensures Cells([s]) == s + [0]
  {
    assert [s][1..] == [];
  }

  /** Everything after the first empty string that is not the first string: a parse cannot see it. */
  function Visible(ss: seq<Str>): (r: seq<Str>)
    ensures r <= ss
    ensures ss != [] ==> r != []
  {
    if |ss| <= 1 then ss
    else if ss[1] == [] then ss[..1]
    else
      assert ss == [ss[0]] + ss[1..];
      [ss[0]] + Visible(ss[1..])
  }

  lemma {:induction false} VisibleParsable(ss: seq<Str>)
    requires Parsable(ss)
    ensures Visible(ss) == ss
  {
    if |ss| > 1 {
      VisibleParsable(ss[1..]);
    }
  }

  lemma {:induction false} FirstNulOf(cells: seq<WChar>, p: nat, s: Str)
    requires p + |s| < |cells| && NoNul(s) && cells[p..p + |s|] == s && cells[p + |s|] == 0
    ensures FirstNul(cells, p) == p + |s|
    decreases |s|
  {
    if s != [] {
      assert cells[p] == cells[p..p + |s|][0] == s[0];
      assert cells[p + 1..p + |s|] == s[1..];
      FirstNulOf(cells, p + 1, s[1..]);
    }
  }

  lemma SplitPrefix(cells: seq<WChar>, p: nat, s: Str, rest: seq<WChar>)
    requires p <= |cells| && s + [0] + rest <= cells[p..] && rest != []
    ensures var q := p + |s|;
            && q + 1 < |cells| && cells[p..q] == s && cells[q] == 0
            && rest <= cells[q + 1..] && cells[q + 1] == rest[0]
  {
    var u, e, q := cells[p..], s + [0] + rest, p + |s|;
    assert u[..|e|] == e;
    assert cells[p..q] == u[..|s|] == e[..|s|] == s;
    assert cells[q] == u[|s|] == e[|s|];
    assert cells[q + 1..] == u[|s| + 1..];
    assert rest == e[|s| + 1..];
  }

  /** The layout of a list from offset `p`, string by string. */
  ghost predicate LaidOut(cells: seq<WChar>, p: nat, ss: seq<Str>)
    decreases |ss|
  {
    if ss == [] then p < |cells| && cells[p] == 0
    else
      var q := p + |ss[0]|;
      q < |cells| && cells[p..q] == ss[0] && cells[q] == 0 && LaidOut(cells, q + 1, ss[1..])
  }

  lemma {:induction false} EncodeLaidOut(cells: seq<WChar>, p: nat, ss: seq<Str>)
    requires p <= |cells| && Encode(ss) <= cells[p..]
    ensures LaidOut(cells, p, ss)
    decreases |ss|
  {
    if ss == [] {
      assert cells[p] == cells[p..][0] == Encode(ss)[0];
    } else {
      assert Encode(ss) == ss[0] + [0] + Encode(ss[1..]);
      SplitPrefix(cells, p, ss[0], Encode(ss[1..]));
      EncodeLaidOut(cells, p + |ss[0]| + 1, ss[1..]);
    }
  }

  /** The number of cells of a list. */
  function Span(ss: seq<Str>): nat {
    if ss == [] then 1 else |ss[0]| + 1 + Span(ss[1..])
  }

  lemma {:induction false} SpanEncode(ss: seq<Str>)
    ensures Span(ss) == |Encode(ss)|
  {
    if ss != [] {
      SpanEncode(ss[1..]);
    }
  }

  lemma ParseUnfold(cells: seq<WChar>, p: nat, max: nat, k: nat)
    requires p <= k && k + 1 < |cells| && FirstNul(cells, p) == k && (max == 0 || k + 1 < max)
    ensures Parse(cells, p, max) == if cells[k + 1] == 0 then Accepted([cells[p..k]])
                                    else Parse(cells, k + 1, max).Prepend(cells[p..k])
  {
  }

  /** The first string of a layout, and the cell behind its NUL. */
  lemma LaidOutHead(cells: seq<WChar>, p: nat, ss: seq<Str>)
    requires ss != [] && AllNoNul(ss) && LaidOut(cells, p, ss) && p <= |cells|
    ensures var q := p + |ss[0]|;
            && q + 1 < |cells| && FirstNul(cells, p) == q && cells[p..q] == ss[0]
            && LaidOut(cells, q + 1, ss[1..])
            && (cells[q + 1] == 0 <==> |ss| == 1 || ss[1] == [])
  {
    var q := p + |ss[0]|;
    FirstNulOf(cells, p, ss[0]);
    if |ss| > 1 {
      var t := ss[1..][0];
      assert cells[q + 1..q + 1 + |t|] == t;
      if t != [] {
        assert cells[q + 1] == t[0] && t[0] in t;
      }
    }
  }

  lemma VisibleHead(ss: seq<Str>)
    requires ss != []
    ensures if |ss| == 1 || ss[1] == [] then Visible(ss) == [ss[0]] && Span(Visible(ss)) == |ss[0]| + 2
            else Visible(ss) == [ss[0]] + Visible(ss[1..])
                 && Span(Visible(ss)) == |ss[0]| + 1 + Span(Visible(ss[1..]))
  {
    if |ss| == 1 || ss[1] == [] {
      assert Visible(ss)[1..] == [];
    } else {
      assert Visible(ss)[1..] == Visible(ss[1..]);
    }
  }

  lemma {:induction false} ParseLaidOut(cells: seq<WChar>, p: nat, max: nat, ss: seq<Str>)
    requires ss != [] && AllNoNul(ss) && LaidOut(cells, p, ss) && p <= |cells|
    requires max == 0 || p + Span(Visible(ss)) <= max
    ensures Parse(cells, p, max) == Accepted(Visible(ss))
    decreases |ss|
  {
    var q := p + |ss[0]|;
    LaidOutHead(cells, p, ss);
    VisibleHead(ss);
    if |ss| > 1 && ss[1] != [] {
      ParseLaidOut(cells, q + 1, max, ss[1..]);
    }
    ParseUnfold(cells, p, max, q);
  }

  /** Parsing a laid out list delivers its visible strings, in order, when the limit leaves room. */
  lemma ParseLayout(cells: seq<WChar>, p: nat, max: nat, ss: seq<Str>)
    requires p <= |cells| && ss != [] && AllNoNul(ss)
    requires Encode(ss) <= cells[p..]
    requires max == 0 || p + |Encode(Visible(ss))| <= max
    ensures Parse(cells, p, max) == Accepted(Visible(ss))
  {
    EncodeLaidOut(cells, p, ss);
    SpanEncode(Visible(ss));
    ParseLaidOut(cells, p, max, ss);
  }

  /** Parsing undoes encoding, on every list a parse can deliver. */
  lemma ParseEncode(ss: seq<Str>)
    requires Parsable(ss)
    ensures WellFormed(Encode(ss)) && Strings(Encode(ss)) == ss
  {
    VisibleParsable(ss);
    assert Encode(ss)[0..] == Encode(ss);
    ParseLayout(Encode(ss), 0, 0, ss);
  }

  /** Encoding undoes parsing: what is accepted is exactly the start of the buffer. */
  lemma {:induction false} EncodeParse(cells: seq<WChar>, p: nat, max: nat)
    requires p <= |cells| && Parse(cells, p, max).Accepted?
    ensures var ss := Parse(cells, p, max).calls;
            && Parsable(ss)
            && Encode(ss) <= cells[p..]
            && (max != 0 ==> p + |Encode(ss)| <= max)
            && (p < |cells| && cells[p] != 0 ==> ss[0] != [])
    decreases |cells| - p
  {
    var k := FirstNul(cells, p);
    var s := cells[p..k];
    if cells[k + 1] == 0 {
      CellsSingle(s);
      assert Encode([s]) == s + [0, 0] == cells[p..k + 2];
    } else {
      EncodeParse(cells, k + 1, max);
      EncodeCons(cells, p, k, Parse(cells, k + 1, max).calls);
    }
  }

  lemma EncodeCons(cells: seq<WChar>, p: nat, k: nat, rest: seq<Str>)
    requires p <= k < |cells| && cells[k] == 0 && Encode(rest) <= cells[k + 1..]
    ensures Encode([cells[p..k]] + rest) == cells[p..k] + [0] + Encode(rest)
    ensures Encode([cells[p..k]] + rest) <= cells[p..]
  {
    var ss, s := [cells[p..k]] + rest, cells[p..k];
    assert ss[1..] == rest;
    assert Encode(ss) == s + [0] + Encode(rest);
    assert cells[p..] == cells[p..k + 1] + cells[k + 1..];
    assert cells[p..k + 1] == s + [0];
  }

  /** A parse and a limited parse agree: the limit only cuts. */
  lemma {:induction false} ParseLimit(cells: seq<WChar>, p: nat, max: nat)
    requires p <= |cells| && Parse(cells, p, 0).Accepted? && max > 0
    requires p + |Encode(Parse(cells, p, 0).calls)| <= max
    ensures Parse(cells, p, max) == Parse(cells, p, 0)
  {
    EncodeParse(cells, p, 0);
    var ss := Parse(cells, p, 0).calls;
    VisibleParsable(ss);
    ParseLayout(cells, p, max, ss);
  }

  // ---- the length check, without reference to the parse ----

  predicate DoubleNulAt(cells: seq<WChar>, i: int) {
    0 <= i && i + 1 < |cells| && cells[i] == 0 && cells[i + 1] == 0
  }

  predicate NulAt(cells: seq<WChar>, i: int) {
    0 <= i < |cells| && cells[i] == 0
  }

  /** A limited parse accepts exactly when some double NUL ends within the limit, and reads past
      the allocation exactly when there is none and no NUL stands at or after the last admitted
      cell: the limit is looked at only after wcslen has run. */
  lemma {:induction false} ParseLimitExact(cells: seq<WChar>, p: nat, max: nat)
    requires p <= |cells| && max > p
    ensures Parse(cells, p, max).Accepted? <==> exists i :: p <= i && i + 2 <= max && DoubleNulAt(cells, i)
    ensures Parse(cells, p, max).OutOfBounds? <==>
              && (forall i | p <= i && i + 2 <= max :: !DoubleNulAt(cells, i))
              && (forall k | max - 1 <= k :: !NulAt(cells, k))
    decreases |cells| - p
  {
    var k := FirstNul(cells, p);
    forall i | p <= i < k ensures !DoubleNulAt(cells, i) && !NulAt(cells, i) {
      assert cells[i] == cells[p..k][i - p];
    }
    if k < |cells| {
      assert NulAt(cells, k);
      if k + 1 < max && k + 1 < |cells| {
        if cells[k + 1] == 0 {
          assert DoubleNulAt(cells, k);
        } else {
          ParseLimitExact(cells, k + 1, max);
          assert !DoubleNulAt(cells, k);
        }
      }
    }
  }

  /** A limit inside the allocation does not keep the check inside it. */
  lemma LimitDoesNotBoundReads(c: WChar)
    requires c != 0
    ensures Parse([c], 0, 1).OutOfBounds?
  {
    ParseLimitExact([c], 0, 1);
  }

  // ---- case-insensitive filter and insertion ----

  /** _wcsicmp(a, b) == 0 */
  predicate Match(fold: Fold, a: Str, b: Str) {
    |a| == |b| && forall i | 0 <= i < |a| :: fold(a[i]) == fold(b[i])
  }

  predicate HasMatch(fold: Fold, ss: seq<Str>, s: Str) {
    exists i | 0 <= i < |ss| :: Match(fold, ss[i], s)
  }

  function Without(fold: Fold, ss: seq<Str>, s: Str): seq<Str> {
    if ss == [] then []
    else if Match(fold, ss[0], s) then Without(fold, ss[1..], s)
    else [ss[0]] + Without(fold, ss[1..], s)
  }

  /** The code's representation of an empty list is one empty string. */
  function OrEmpty(ss: seq<Str>): seq<Str> {
    if ss == [] then [[]] else ss
  }

  function InsertAfter(fold: Fold, ss: seq<Str>, after: Str, add: Str): seq<Str> {
    if ss == [] then []
    else if Match(fold, ss[0], after) then [ss[0], add] + ss[1..]
    else [ss[0]] + InsertAfter(fold, ss[1..], after, add)
  }

  datatype Where = AtStart | AtEnd | After(s: Str)

  function Inserted(fold: Fold, ss: seq<Str>, add: Str, where_: Where): seq<Str> {
    match where_
    case AtStart => [add] + ss
    case AtEnd => ss + [add]
    case After(s) => InsertAfter(fold, ss, s, add)
  }

  /** `Without` keeps, in order, exactly the strings that do not match. */
  lemma {:induction false} WithoutExact(fold: Fold, ss: seq<Str>, s: Str)
    ensures !HasMatch(fold, Without(fold, ss, s), s)
    ensures forall x :: x in Without(fold, ss, s) <==> x in ss && !Match(fold, x, s)
    ensures !HasMatch(fold, ss, s) ==> Without(fold, ss, s) == ss
    ensures AllNoNul(ss) ==> AllNoNul(Without(fold, ss, s))
    ensures |Cells(Without(fold, ss, s))| <= |Cells(ss)|
    ensures Parsable(ss) && Without(fold, ss, s) != [] ==> Parsable(Without(fold, ss, s))
  {
    if ss != [] {
      var rest := ss[1..];
      WithoutExact(fold, rest, s);
      assert ss == [ss[0]] + rest;
      if AllNoNul(ss) {
        assert AllNoNul(rest);
      }
      if Parsable(ss) {
        forall x | x in Without(fold, rest, s) ensures x != [] {
        }
        assert AllNoNul(Without(fold, ss, s));
      }
      if !HasMatch(fold, ss, s) {
        assert !Match(fold, ss[0], s);
        assert forall i | 0 <= i < |rest| :: rest[i] == ss[i + 1];
      }
    }
  }

  /** The position of the first match splits an insertion after it. */
  lemma {:induction false} InsertAfterExact(fold: Fold, ss: seq<Str>, after: Str, add: Str) returns (k: nat)
    requires HasMatch(fold, ss, after)
    ensures k < |ss| && Match(fold, ss[k], after)
    ensures forall i | 0 <= i < k :: !Match(fold, ss[i], after)
    ensures InsertAfter(fold, ss, after, add) == ss[..k + 1] + [add] + ss[k + 1..]
  {
    if Match(fold, ss[0], after) {
      k := 0;
      assert ss[..1] == [ss[0]];
    } else {
      var rest := ss[1..];
      HasMatchTail(fold, ss, after);
      var j := InsertAfterExact(fold, rest, after, add);
      k := j + 1;
      assert ss[..k + 1] == [ss[0]] + rest[..j + 1];
      assert ss[k + 1..] == rest[j + 1..];
      forall i | 0 <= i < k ensures !Match(fold, ss[i], after) {
        if i > 0 {
          assert ss[i] == rest[i - 1];
        }
      }
    }
  }

  lemma HasMatchTail(fold: Fold, ss: seq<Str>, s: Str)
    requires ss != []
    ensures HasMatch(fold, ss, s) <==> Match(fold, ss[0], s) || HasMatch(fold, ss[1..], s)
  {
    if i :| 0 <= i < |ss| && Match(fold, ss[i], s) {
      if i > 0 {
        assert ss[1..][i - 1] == ss[i];
      }
    }
    if i :| 0 <= i < |ss[1..]| && Match(fold, ss[1..][i], s) {
      assert ss[i + 1] == ss[1..][i];
    }
  }

  // ---- the comparison and the filter, by the folded strings ----

  function Folded(fold: Fold, s: Str): (r: Str)
    ensures |r| == |s| && forall i | 0 <= i < |s| :: r[i] == fold(s[i])
  {
    if s == [] then [] else [fold(s[0])] + Folded(fold, s[1..])
  }

  /** Two strings match exactly when folding makes them the same string. */
  lemma {:induction false} MatchFolded(fold: Fold, a: Str, b: Str)
    ensures Match(fold, a, b) <==> Folded(fold, a) == Folded(fold, b)
    decreases |a|
  {
    if a != [] && b != [] {
      MatchFolded(fold, a[1..], b[1..]);
      var fa, fb := Folded(fold, a), Folded(fold, b);
      assert fa[0] == fold(a[0]) && fa[1..] == Folded(fold, a[1..]);
      assert fb[0] == fold(b[0]) && fb[1..] == Folded(fold, b[1..]);
      assert fa == fb <==> fa[0] == fb[0] && fa[1..] == fb[1..];
      assert forall i | 1 <= i < |a| :: a[i] == a[1..][i - 1];
      assert forall i | 1 <= i < |b| :: b[i] == b[1..][i - 1];
      MatchCons(fold, a, b);
    }
  }

  lemma MatchCons(fold: Fold, a: Str, b: Str)
    requires a != [] && b != []
    ensures Match(fold, a, b) <==> fold(a[0]) == fold(b[0]) && Match(fold, a[1..], b[1..])
  {
    if fold(a[0]) == fold(b[0]) && Match(fold, a[1..], b[1..]) {
      forall i | 0 <= i < |a| ensures fold(a[i]) == fold(b[i]) {
        if i > 0 {
          assert a[i] == a[1..][i - 1] && b[i] == b[1..][i - 1];
        }
      }
    } else if Match(fold, a, b) {
      forall i | 0 <= i < |a[1..]| ensures fold(a[1..][i]) == fold(b[1..][i]) {
        assert a[1..][i] == a[i + 1] && b[1..][i] == b[i + 1];
      }
    }
  }

  /** The filter, string by string and in order: a string goes exactly when it folds to the same. */
  lemma {:induction false} WithoutByFold(fold: Fold, a: seq<Str>, x: Str, b: seq<Str>, s: Str)
    ensures Without(fold, a + [x] + b, s)
         == Without(fold, a, s) + (if Folded(fold, x) == Folded(fold, s) then [] else [x]) + Without(fold, b, s)
    ensures Without(fold, [], s) == []
    decreases |a|
  {
    var ss := a + [x] + b;
    if a == [] {
      MatchFolded(fold, x, s);
      assert ss[1..] == b;
    } else {
      WithoutByFold(fold, a[1..], x, b, s);
      assert ss[1..] == a[1..] + [x] + b;
    }
  }

  /** A string has a match exactly when one of the list folds to the same; an insertion goes behind
      the first of them. */
  lemma InsertByFold(fold: Fold, ss: seq<Str>, after: Str, add: Str)
    ensures HasMatch(fold, ss, after) <==> exists i | 0 <= i < |ss| :: Folded(fold, ss[i]) == Folded(fold, after)
    ensures forall k | 0 <= k < |ss| && Folded(fold, ss[k]) == Folded(fold, after)
              && (forall i | 0 <= i < k :: Folded(fold, ss[i]) != Folded(fold, after)) ::
              InsertAfter(fold, ss, after, add) == ss[..k + 1] + [add] + ss[k + 1..]
  {
    forall i | 0 <= i < |ss| ensures Match(fold, ss[i], after) <==> Folded(fold, ss[i]) == Folded(fold, after) {
      MatchFolded(fold, ss[i], after);
    }
    if HasMatch(fold, ss, after) {
      var k := InsertAfterExact(fold, ss, after, add);
    }
  }

  /** The strings a canonical list stands for. */
  function Reals(ss: seq<Str>): seq<Str> {
    if ss == [[]] then [] else ss
  }

  /** What an insertion shows of a canonical list: the list without the string, and then the string
      once at its place; only an add at the end of nothing leaves an empty string in front. */
  lemma CanonicalAdd(fold: Fold, ss: seq<Str>, add: Str, where_: Where)
    requires Canonical(ss) && NoNul(add) && add != [] && (where_.After? ==> where_.s != [])
    requires where_.After? ==> NoNul(where_.s)
    ensures var d, rest := OrEmpty(Without(fold, ss, add)), Without(fold, Reals(ss), add);
            && (where_.After? ==> (HasMatch(fold, d, where_.s) <==> HasMatch(fold, rest, where_.s)))
            && (where_.After? ==> HasMatch(fold, rest, where_.s)) ==>
                 Visible(Inserted(fold, d, add, where_))
                 == if where_.AtEnd? && rest == [] then [[], add] else Inserted(fold, rest, add, where_)
  {
    var rest := Without(fold, Reals(ss), add);
    WithoutExact(fold, ss, add);
    if rest == [] {
      assert Visible([add, []]) == [add];
      VisibleParsable([[], add]);
    } else {
      assert forall i | 0 <= i < |rest| :: rest[i] in ss;
      if where_.After? ==> HasMatch(fold, rest, where_.s) {
        InsertedParsable(fold, rest, add, where_);
        VisibleParsable(Inserted(fold, rest, add, where_));
      }
    }
  }

  lemma InsertedParsable(fold: Fold, ss: seq<Str>, add: Str, where_: Where)
    requires AllNoNul(ss) && (forall i | 0 <= i < |ss| :: ss[i] != []) && NoNul(add) && add != []
    requires where_.After? ==> HasMatch(fold, ss, where_.s)
    ensures Parsable(Inserted(fold, ss, add, where_))
  {
    if where_.After? {
      var k := InsertAfterExact(fold, ss, where_.s, add);
    }
  }
}
