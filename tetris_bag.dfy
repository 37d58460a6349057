/**
  The 7-bag randomizer: a bag is refilled with a shuffled permutation of the
  seven piece types, and pieces are popped from its end.
 */
module TetrisBag {
  import opened TetrisPieces

  /** Every one of the seven types occurs in s. */
  predicate HasAllTypes(s: seq<PieceType>)
  {
    I in s && J in s && L in s && O in s && S in s && T in s && Z in s
  }

  lemma HasAllTypesMeans(s: seq<PieceType>)
    ensures HasAllTypes(s) <==> forall t: PieceType :: t in s
  {
    if HasAllTypes(s) {
      forall t: PieceType
        ensures t in s
      {
        match t
        case I =>
        case J =>
        case L =>
        case O =>
        case S =>
        case T =>
        case Z =>
      }
    }
  }

  /** A freshly filled bag: seven entries among which every type occurs. */
  predicate IsBagFill(s: seq<PieceType>)
  {
    |s| == 7 && HasAllTypes(s)
  }

  /** The items of s in the order that popping from its end produces them. */
  function Reverse<X>(s: seq<X>): (r: seq<X>)
    ensures |r| == |s|
  {
    seq(|s|, i requires 0 <= i < |s| => s[|s| - 1 - i])
  }

  /**
    Fisher-Yates shuffle of a copy of the input: for i from the last index down
    to 1, swap position i with an arbitrarily chosen position j in 0..i.
    Whatever the choices, the result is a permutation of the input.
   */
  method Shuffle(arr: seq<PieceType>) returns (r: seq<PieceType>)
    ensures |r| == |arr|
    ensures multiset(r) == multiset(arr)
  {
    var a := new PieceType[|arr|](k requires 0 <= k < |arr| => arr[k]);
    assert a[..] == arr;
    var i := a.Length - 1;
    while i > 0
      invariant -1 <= i < a.Length
      invariant multiset(a[..]) == multiset(arr)
    {
      var j :| 0 <= j <= i;
      a[i], a[j] := a[j], a[i];
      i := i - 1;
    }
    r := a[..];
  }

  /** A shuffle of the seven types is a fill. */
  lemma ShuffledIsFill(s: seq<PieceType>)
    requires multiset(s) == multiset(AllTypes)
    ensures IsBagFill(s)
  {
    assert |s| == |multiset(s)| == |multiset(AllTypes)|;
    assert AllTypes == [I, J, L, O, S, T, Z];
    assert AllTypes[0] in multiset(s) && AllTypes[1] in multiset(s) && AllTypes[2] in multiset(s);
    assert AllTypes[3] in multiset(s) && AllTypes[4] in multiset(s) && AllTypes[5] in multiset(s);
    assert AllTypes[6] in multiset(s);
  }

  /** The distinct values of a sequence. */
  ghost function Elems(s: seq<PieceType>): set<PieceType>
  {
    set i | 0 <= i < |s| :: s[i]
  }

  lemma {:induction false} ElemsBound(s: seq<PieceType>)
    ensures |Elems(s)| <= |s|
  {
    if s != [] {
      ElemsBound(s[1..]);
      assert Elems(s) == Elems(s[1..]) + {s[0]} by {
        forall i | 0 <= i < |s|
          ensures s[i] in Elems(s[1..]) + {s[0]}
        {
          if i > 0 {
            assert s[1..][i - 1] == s[i];
          }
        }
      }
    }
  }

  lemma SubsetBound(a: set<PieceType>, b: set<PieceType>)
    requires a <= b
    ensures |a| <= |b|
  {
    assert b == a + (b - a);
  }

  /** A sequence in which every one of the seven types occurs has at least seven entries. */
  lemma CoverNeedsSeven(s: seq<PieceType>)
    requires HasAllTypes(s)
    ensures |s| >= 7
  {
    HasAllTypesMeans(s);
    var all := {I, J, L, O, S, T, Z};
    assert |all| == 7;
    forall t | t in all
      ensures t in Elems(s)
    {
      assert t in s;
      var i :| 0 <= i < |s| && s[i] == t;
    }
    SubsetBound(all, Elems(s));
    ElemsBound(s);
  }

  /**
    No type repeats in a fill: with a repeat, the seven types would fit in the
    six remaining entries.
   */
  lemma FillHasEachTypeOnce(s: seq<PieceType>)
    requires IsBagFill(s)
    ensures forall i, j :: 0 <= i < j < |s| ==> s[i] != s[j]
  {
    HasAllTypesMeans(s);
    forall i, j | 0 <= i < j < |s|
      ensures s[i] != s[j]
    {
      if s[i] == s[j] {
        var rest := s[..j] + s[j + 1..];
        forall t: PieceType
          ensures t in rest
        {
          assert t in s;
          var k :| 0 <= k < |s| && s[k] == t;
          if k < j {
            assert rest[k] == t;
          } else if k > j {
            assert rest[k - 1] == t;
          } else {
            assert rest[i] == t;
          }
        }
        HasAllTypesMeans(rest);
        CoverNeedsSeven(rest);
      }
    }
  }

  /** Seven pops from one fill yield every type exactly once: all seven occur and none twice. */
  lemma SevenPopsEachTypeOnce(fill: seq<PieceType>)
    requires IsBagFill(fill)
    ensures |Reverse(fill)| == 7
    ensures forall t: PieceType :: t in Reverse(fill)
    ensures forall i, j :: 0 <= i < j < 7 ==> Reverse(fill)[i] != Reverse(fill)[j]
  {
    var r := Reverse(fill);
    FillHasEachTypeOnce(fill);
    HasAllTypesMeans(fill);
    forall t: PieceType
      ensures t in r
    {
      assert t in fill;
      var k :| 0 <= k < 7 && fill[k] == t;
      assert r[6 - k] == t;
    }
  }

  /**
    How `drawn` was popped from a bag that held `before` and now holds `after`:
    from the old bag alone, or the whole old bag and then the end of one fresh fill.
   */
  ghost predicate BagDraw(before: seq<PieceType>, drawn: seq<PieceType>, after: seq<PieceType>)
  {
    if |drawn| <= |before| then
      before == after + Reverse(drawn)
    else
      before == Reverse(drawn[..|before|]) && IsBagFill(after + Reverse(drawn[|before|..]))
  }

  /** The item pushed last is popped first. */
  lemma ReverseSnoc<X>(s: seq<X>, x: X)
    ensures Reverse(s + [x]) == [x] + Reverse(s)
  {
  }

  /** Nothing drawn: the bag is as it was. */
  lemma BagDrawNone(bag: seq<PieceType>)
    ensures BagDraw(bag, [], bag)
  {
  }

  /** Popping the last item of a non-empty bag extends the draw by that item. */
  lemma BagDrawPop(before: seq<PieceType>, drawn: seq<PieceType>, after: seq<PieceType>)
    requires BagDraw(before, drawn, after) && |after| > 0
    ensures BagDraw(before, drawn + [after[|after| - 1]], after[..|after| - 1])
  {
    if |drawn| > |before| {
      PopFromFill(before, drawn, after);
    } else {
      PopFromOld(drawn, after);
    }
  }

  lemma PopFromOld(drawn: seq<PieceType>, after: seq<PieceType>)
    requires |after| > 0
    ensures after + Reverse(drawn) == after[..|after| - 1] + Reverse(drawn + [after[|after| - 1]])
  {
    var x := after[|after| - 1];
    var rest := after[..|after| - 1];
    ReverseSnoc(drawn, x);
    assert after == rest + [x];
  }

  lemma PopFromFill(before: seq<PieceType>, drawn: seq<PieceType>, after: seq<PieceType>)
    requires |drawn| > |before| && |after| > 0
    requires before == Reverse(drawn[..|before|])
    requires IsBagFill(after + Reverse(drawn[|before|..]))
    ensures BagDraw(before, drawn + [after[|after| - 1]], after[..|after| - 1])
  {
    var x := after[|after| - 1];
    var d := drawn + [x];
    assert d[..|before|] == drawn[..|before|];
    assert d[|before|..] == drawn[|before|..] + [x];
    ReverseSnoc(drawn[|before|..], x);
    assert after[..|after| - 1] + Reverse(d[|before|..]) == after + Reverse(drawn[|before|..]);
  }

  /** An emptied bag refilled with a fresh fill, then popped once. */
  lemma BagDrawRefillPop(before: seq<PieceType>, drawn: seq<PieceType>, fill: seq<PieceType>)
    requires BagDraw(before, drawn, []) && |drawn| <= |before| && IsBagFill(fill)
    ensures |fill| == 7
    ensures BagDraw(before, drawn + [fill[6]], fill[..6])
  {
    var d := drawn + [fill[6]];
    assert before == Reverse(drawn);
    assert |drawn| == |before|;
    assert d[..|before|] == drawn;
    assert d[|before|..] == [fill[6]];
    assert fill[..6] + Reverse([fill[6]]) == fill;
  }

  /**
    Filling an empty bag, drawing `q`, then drawing one more piece `x`: the
    bag left and everything drawn form one fill in pop order.
   */
  lemma DealFromEmpty(q: seq<PieceType>, b1: seq<PieceType>, x: PieceType, b2: seq<PieceType>)
    requires 0 < |q| < 7 && BagDraw([], q, b1) && BagDraw(b1, [x], b2)
    ensures IsBagFill(b2 + Reverse(q + [x]))
  {
    DrawFromEmpty(q, b1);
    DrawOne(b1, b2, x);
    ReverseSnoc(q, x);
    Assoc(b2, [x], Reverse(q));
  }

  lemma DrawFromEmpty(q: seq<PieceType>, b1: seq<PieceType>)
    requires |q| > 0 && BagDraw([], q, b1)
    ensures IsBagFill(b1 + Reverse(q)) && |b1| == 7 - |q|
  {
    assert q[0..] == q;
  }

  lemma DrawOne(b1: seq<PieceType>, b2: seq<PieceType>, x: PieceType)
    requires BagDraw(b1, [x], b2) && |b1| > 0
    ensures b1 == b2 + [x]
  {
  }

  lemma Assoc<X>(a: seq<X>, b: seq<X>, c: seq<X>)
    ensures a + (b + c) == (a + b) + c
  {
  }
}
