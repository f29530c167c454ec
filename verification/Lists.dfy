/** Reversal, for the lists of this system that put every new member in front. */
module Lists {

  function Reverse<T>(l: seq<T>): (r: seq<T>)
    ensures |r| == |l|
  {
    if |l| == 0 then [] else Reverse(l[1..]) + [l[0]]
  }

  lemma {:induction false} ReverseAppend<T>(a: seq<T>, b: seq<T>)
    ensures Reverse(a + b) == Reverse(b) + Reverse(a)
  {
    if |a| == 0 {
      assert a + b == b;
    } else {
      assert (a + b)[1..] == a[1..] + b;
      ReverseAppend(a[1..], b);
    }
  }

  lemma {:induction false} ReverseTwice<T>(l: seq<T>)
    ensures Reverse(Reverse(l)) == l
  {
    if |l| > 0 {
      ReverseAppend(Reverse(l[1..]), [l[0]]);
      ReverseTwice(l[1..]);
      assert Reverse([l[0]]) == [l[0]];
    }
  }

  lemma ReverseInjective<T>(a: seq<T>, b: seq<T>)
    ensures Reverse(a) == Reverse(b) <==> a == b
  {
    ReverseTwice(a);
    ReverseTwice(b);
  }

  /** Putting x in front of a reversed list reverses the list with x at its end. */
  lemma ReverseSnoc<T>(l: seq<T>, x: T)
    ensures Reverse(l + [x]) == [x] + Reverse(l)
  {
    ReverseAppend(l, [x]);
    assert Reverse([x]) == [x];
  }
}
