/** The order of dotted field names: component by component, a longer name before its own prefix. */
module DottedNames {
  import opened Bytes
  import opened LexNum

  datatype FieldCompareResult = LEFT_SUBFIELD | LEFT_BEFORE | SAME | RIGHT_BEFORE | RIGHT_SUBFIELD {
    /** The value of the C++ enumerator. */
    function Rank(): int {
      match this
      case LEFT_SUBFIELD => -2
      case LEFT_BEFORE => -1
      case SAME => 0
      case RIGHT_BEFORE => 1
      case RIGHT_SUBFIELD => 2
    }
  }

  const MAX_LOOPS: nat := 1024 * 1024

  /** std::string::find of '.', or the length. */
  function FindDot(s: seq<byte>, start: nat): (k: nat)
    requires start <= |s|
    ensures start <= k <= |s| && DOT !in s[start..k] && (k < |s| ==> s[k] == DOT)
    decreases |s| - start
  {
    if start == |s| || s[start] == DOT then start
    else
      assert s[start..FindDot(s, start + 1)] == [s[start]] + s[start + 1..FindDot(s, start + 1)];
      FindDot(s, start + 1)
  }

  /** The components the loop walks over: a trailing dot opens no component. */
  function Components(s: seq<byte>, start: nat): seq<seq<byte>>
    decreases |s| - start
  {
    if start >= |s| then []
    else [CStr(s[start..FindDot(s, start)])] + Components(s, FindDot(s, start) + 1)
  }

  function WithDots(c: seq<seq<byte>>): seq<byte> {
    if c == [] then [] else if |c| == 1 then c[0] else c[0] + [DOT] + WithDots(c[1..])
  }

  /** The components hold no dots, and with dots between them are the name, but for a dot at its end. */
  lemma {:induction false} ComponentsAre(s: seq<byte>, start: nat)
    requires NoNul(s) && start <= |s|
    ensures var c := Components(s, start);
      && (forall i :: 0 <= i < |c| ==> DOT !in c[i])
      && (WithDots(c) == s[start..] || WithDots(c) + [DOT] == s[start..]) && (c == [] <==> start == |s|)
    decreases |s| - start
  {
    hide FindDot, CStr, Components, WithDots;
    ComponentsStep(s, start);
    if start < |s| {
      var k := FindDot(s, start);
      if k < |s| {
        ComponentsAre(s, k + 1);
        WithDotsStep(s[start..k], Components(s, k + 1));
        assert s[start..] == s[start..k] + [DOT] + s[k + 1..];
      } else {
        WithDotsStep(s[start..], []);
      }
    } else {
      WithDotsStep([], []);
    }
  }

  /** Up to the first dot lies the first component, behind it the others. */
  lemma ComponentsStep(s: seq<byte>, start: nat)
    requires NoNul(s) && start <= |s|
    ensures start == |s| ==> Components(s, start) == []
    ensures start < |s| ==>
      Components(s, start) == [s[start..FindDot(s, start)]] + Components(s, FindDot(s, start) + 1)
    ensures start < |s| == FindDot(s, start) ==> Components(s, start) == [s[start..]]
  {
    hide FindDot, CStr, NoNul;
    if start < |s| {
      var x := s[start..FindDot(s, start)];
      PieceClean(s, start, FindDot(s, start));
      if FindDot(s, start) == |s| {
        assert Components(s, |s| + 1) == [];
        assert x == s[start..];
      }
    }
  }

  lemma PieceClean(s: seq<byte>, i: nat, k: nat)
    requires NoNul(s) && i <= k <= |s|
    ensures NoNul(s[i..k]) && CStr(s[i..k]) == s[i..k]
  {
    hide CStr;
    assert NoNul(s[i..k]);
  }

  lemma WithDotsStep(x: seq<byte>, c: seq<seq<byte>>)
    ensures WithDots([]) == [] && WithDots([x]) == x
    ensures c == [] ==> WithDots([x] + c) + [DOT] == x + [DOT] + WithDots(c)
    ensures c != [] ==> WithDots([x] + c) == x + [DOT] + WithDots(c)
  {
    assert ([x] + c)[1..] == c && [x] + [] == [x];
  }

  function Compare(l: seq<seq<byte>>, r: seq<seq<byte>>): FieldCompareResult {
    if l == [] then (if r == [] then SAME else RIGHT_SUBFIELD)
    else if r == [] then LEFT_SUBFIELD
    else
      var x := Order(l[0], r[0]);
      if x < 0 then LEFT_BEFORE else if x > 0 then RIGHT_BEFORE else Compare(l[1..], r[1..])
  }

  /** Loop iterations that a comparison takes. */
  function Loops(l: seq<seq<byte>>, r: seq<seq<byte>>): nat {
    if l == [] || r == [] || Order(l[0], r[0]) != 0 then 1 else 1 + Loops(l[1..], r[1..])
  }

  datatype Outcome = Done(result: FieldCompareResult) | TooManyLoops

  /** One round of the loop, at `a` and `b`. */
  lemma OneRound(l: seq<byte>, r: seq<byte>, a: nat, b: nat)
    ensures var x, y := Components(l, a), Components(r, b);
      if a >= |l| || b >= |r| then
        Loops(x, y) == 1 && Compare(x, y) == if a < |l| then LEFT_SUBFIELD else if b < |r| then RIGHT_SUBFIELD else SAME
      else
        var i, j := FindDot(l, a), FindDot(r, b);
        var o := Order(CStr(l[a..i]), CStr(r[b..j]));
        if o != 0 then Loops(x, y) == 1 && Compare(x, y) == if o < 0 then LEFT_BEFORE else RIGHT_BEFORE
        else
          && Loops(x, y) == 1 + Loops(Components(l, i + 1), Components(r, j + 1))
          && Compare(x, y) == Compare(Components(l, i + 1), Components(r, j + 1))
  {
    hide Tokens, LexNum.Compare, FindDot, CStr;
  }

  /** The loop gives the component order, or runs into its cap exactly when the comparison needs more iterations. */
  method CompareDottedFieldNames(l: seq<byte>, r: seq<byte>) returns (o: Outcome)
    ensures o == if Loops(Components(l, 0), Components(r, 0)) <= 1024 * 1024
                 then Done(Compare(Components(l, 0), Components(r, 0))) else TooManyLoops
  {
    hide Tokens, LexNum.Compare, FindDot, CStr, Components, Compare, Loops;
    var lstart, rstart := 0, 0;
    for i := 0 to MAX_LOOPS
      invariant Loops(Components(l, 0), Components(r, 0)) == i + Loops(Components(l, lstart), Components(r, rstart))
      invariant Compare(Components(l, 0), Components(r, 0)) == Compare(Components(l, lstart), Components(r, rstart))
    {
      OneRound(l, r, lstart, rstart);
      if lstart >= |l| {
        if rstart >= |r| {
          return Done(SAME);
        }
        return Done(RIGHT_SUBFIELD);
      }
      if rstart >= |r| {
        return Done(LEFT_SUBFIELD);
      }
      var lend, rend := FindDot(l, lstart), FindDot(r, rstart);
      var c, d := CStr(l[lstart..lend]), CStr(r[rstart..rend]);
      var x := LexNumCmp(c, d);
      if x < 0 {
        return Done(LEFT_BEFORE);
      }
      if x > 0 {
        return Done(RIGHT_BEFORE);
      }
      lstart, rstart := lend + 1, rend + 1;
    }
    OneRound(l, r, lstart, rstart);
    return TooManyLoops;
  }

  /** Exactly the negation of the swapped call. */
  lemma {:induction false} CompareSwap(l: seq<seq<byte>>, r: seq<seq<byte>>)
    ensures Compare(r, l).Rank() == -Compare(l, r).Rank()
    ensures Loops(r, l) == Loops(l, r)
  {
    hide Order;
    if l != [] && r != [] {
      OrderIsTotalPreorder(l[0], r[0], r[0]);
      CompareSwap(l[1..], r[1..]);
    }
  }

  lemma {:induction false} CompareTransitive(a: seq<seq<byte>>, b: seq<seq<byte>>, c: seq<seq<byte>>)
    requires Compare(a, b).Rank() <= 0 && Compare(b, c).Rank() <= 0
    ensures Compare(a, c).Rank() <= 0
  {
    hide Order;
    if a != [] && b != [] && c != [] {
      OrderIsTotalPreorder(a[0], b[0], c[0]);
      OrderIsTotalPreorder(c[0], a[0], b[0]);
      OrderIsTotalPreorder(b[0], c[0], a[0]);
      if Order(a[0], b[0]) == 0 && Order(b[0], c[0]) == 0 {
        CompareTransitive(a[1..], b[1..], c[1..]);
      }
    }
  }

  ghost predicate EqualComponents(l: seq<seq<byte>>, r: seq<seq<byte>>) {
    |l| == |r| && forall i :: 0 <= i < |l| ==> Order(l[i], r[i]) == 0
  }

  /** The subfield results: one component list is a proper prefix of the other, up to equality of components. */
  lemma {:induction false} SubfieldIff(l: seq<seq<byte>>, r: seq<seq<byte>>)
    ensures Compare(l, r) == LEFT_SUBFIELD <==> |r| < |l| && EqualComponents(l[..|r|], r)
    ensures Compare(l, r) == RIGHT_SUBFIELD <==> |l| < |r| && EqualComponents(l, r[..|l|])
    ensures Compare(l, r) == SAME <==> EqualComponents(l, r)
  {
    hide Order;
    if l != [] && r != [] {
      SubfieldIff(l[1..], r[1..]);
      if |r| <= |l| { EqualCons(l[..|r|], r); assert l[..|r|][1..] == l[1..][..|r| - 1]; }
      if |l| <= |r| { EqualCons(l, r[..|l|]); assert r[..|l|][1..] == r[1..][..|l| - 1]; }
      if |l| == |r| { EqualCons(l, r); }
    }
  }

  /** Otherwise the first components that are not equal decide. */
  lemma {:induction false} BeforeIff(l: seq<seq<byte>>, r: seq<seq<byte>>)
    ensures Compare(l, r) == LEFT_BEFORE <==>
      exists k :: 0 <= k < |l| && k < |r| && EqualComponents(l[..k], r[..k]) && Order(l[k], r[k]) < 0
    ensures Compare(l, r) == RIGHT_BEFORE <==>
      exists k :: 0 <= k < |l| && k < |r| && EqualComponents(l[..k], r[..k]) && Order(l[k], r[k]) > 0
  {
    hide Order;
    if l != [] && r != [] {
      BeforeIff(l[1..], r[1..]);
      forall k | 0 < k < |l| && k < |r|
        ensures EqualComponents(l[..k], r[..k]) <==> Order(l[0], r[0]) == 0 && EqualComponents(l[1..][..k - 1], r[1..][..k - 1])
        ensures l[k] == l[1..][k - 1] && r[k] == r[1..][k - 1]
      {
        EqualCons(l[..k], r[..k]);
        assert l[..k][1..] == l[1..][..k - 1] && r[..k][1..] == r[1..][..k - 1];
      }
      assert l[..0] == [] && r[..0] == [];
      assert EqualComponents(l[..0], r[..0]);
    }
  }

  lemma EqualCons(l: seq<seq<byte>>, r: seq<seq<byte>>)
    requires l != [] && |l| == |r|
    ensures EqualComponents(l, r) <==> Order(l[0], r[0]) == 0 && EqualComponents(l[1..], r[1..])
  {
    hide Order;
    assert l == [l[0]] + l[1..] && r == [r[0]] + r[1..];
  }
}
