/**
 Lists of parameter values sent as text: every value is pushed in front of a
 list, the list is written with "||" after each string, reading pushes the
 strings in front of another list, and popping walks that list from its front.
 */
module Strdata {
  import opened Lists
  import opened Params

  const SEP := "||"

  // ---- Separators ----

  predicate SepAt(s: string, i: nat) {
    i + 2 <= |s| && s[i] == '|' && s[i + 1] == '|'
  }

  /** strstr() for the separator, from position i on; the length of s if there is none. */
  function FindSep(s: string, i: nat): (k: nat)
    requires i <= |s|
    ensures i <= k <= |s|
    ensures k < |s| ==> SepAt(s, k)
    ensures forall j :: i <= j < k ==> !SepAt(s, j)
    decreases |s| - i
  {
    if i == |s| || SepAt(s, i) then i else FindSep(s, i + 1)
  }

  /** A string that a following separator does not cut short. */
  predicate Clean(s: string) {
    (forall i :: 0 <= i < |s| ==> !SepAt(s, i)) && (|s| > 0 ==> s[|s| - 1] != '|')
  }

  function Encode(l: seq<string>): string {
    if |l| == 0 then "" else l[0] + SEP + Encode(l[1..])
  }

  /** The strings before the separators, in the order they stand in the text. */
  function Decode(s: string): seq<string>
    decreases |s|
  {
    var k := FindSep(s, 0);
    if k == |s| then [] else [s[..k]] + Decode(s[k + 2..])
  }

  lemma FirstSepIff(s: string, rest: string)
    ensures FindSep(s + SEP + rest, 0) == |s| <==> Clean(s)
    ensures FindSep(s + SEP + rest, 0) <= |s|
  {
    var t := s + SEP + rest;
    assert SepAt(t, |s|);
    forall i | 0 <= i < |s| ensures SepAt(t, i) <==> SepAt(s, i) || (i == |s| - 1 && s[i] == '|') {
    }
    var k := FindSep(t, 0);
    assert k <= |s|;
  }

  predicate AllClean(l: seq<string>) {
    forall i :: 0 <= i < |l| ==> Clean(l[i])
  }

  lemma DecodeFirst(s: string, rest: string)
    requires FindSep(s + SEP + rest, 0) == |s|
    ensures Decode(s + SEP + rest) == [s] + Decode(rest)
  {
    hide FindSep;
    var t := s + SEP + rest;
    assert t[..|s|] == s && t[|s| + 2..] == rest;
  }

  /** A string with a separator in it, or with a bar at its end, comes back shorter. */
  lemma DecodeCut(s: string, rest: string)
    requires FindSep(s + SEP + rest, 0) < |s|
    ensures Decode(s + SEP + rest) != [] && |Decode(s + SEP + rest)[0]| < |s|
  {
    hide FindSep;
  }

  lemma AllCleanStep(l: seq<string>)
    requires |l| > 0
    ensures AllClean(l) <==> Clean(l[0]) && AllClean(l[1..])
  {
    hide Clean;
    if AllClean(l[1..]) && Clean(l[0]) {
      forall i | 0 <= i < |l| ensures Clean(l[i]) {
        assert i > 0 ==> l[i] == l[1..][i - 1];
      }
    }
  }

  /** Decoding an encoded list gives it back exactly when every string is clean. */
  lemma {:induction false} DecodeEncodeIff(l: seq<string>)
    ensures Decode(Encode(l)) == l <==> AllClean(l)
  {
    if |l| > 0 {
      hide Decode, Clean, AllClean, FindSep;
      var rest := Encode(l[1..]);
      DecodeEncodeIff(l[1..]);
      AllCleanStep(l);
      FirstSepIff(l[0], rest);
      if Clean(l[0]) {
        DecodeFirst(l[0], rest);
        assert l == [l[0]] + l[1..];
        assert ([l[0]] + Decode(rest))[1..] == Decode(rest);
      } else {
        DecodeCut(l[0], rest);
      }
    } else {
      assert Decode("") == [];
    }
  }

  /** What follows the last separator is dropped. */
  lemma {:induction false} TailDropped(l: seq<string>, tail: string)
    requires AllClean(l) && forall i :: 0 <= i < |tail| ==> !SepAt(tail, i)
    ensures Decode(Encode(l) + tail) == l
  {
    if |l| == 0 {
      assert Encode(l) + tail == tail;
      assert FindSep(tail, 0) == |tail|;
    } else {
      hide FindSep, Clean;
      var rest := Encode(l[1..]) + tail;
      TailDropped(l[1..], tail);
      assert Encode(l) + tail == l[0] + SEP + rest;
      FirstSepIff(l[0], rest);
      DecodeFirst(l[0], rest);
      assert l == [l[0]] + l[1..];
    }
  }

  // ---- What arrives ----

  /** What the other side's list is after these strings were pushed, written and read. */
  function Received(texts: seq<string>): seq<string> {
    Reverse(Decode(Encode(Reverse(texts))))
  }

  /** Three reversals cancel: the list arrives in push order exactly when every string is clean. */
  lemma ReceivedIff(texts: seq<string>)
    ensures Received(texts) == texts <==> AllClean(texts)
  {
    var r := Reverse(texts);
    DecodeEncodeIff(r);
    ReverseTwice(texts);
    ReverseInjective(Decode(Encode(r)), r);
    CleanReverse(texts);
  }

  lemma {:induction false} CleanReverse(l: seq<string>)
    ensures AllClean(Reverse(l)) <==> AllClean(l)
  {
    if |l| > 0 {
      CleanReverse(l[1..]);
      var r := Reverse(l[1..]);
      assert forall i :: 0 <= i < |r| ==> Reverse(l)[i] == r[i];
      assert Reverse(l)[|r|] == l[0];
      assert forall i :: 0 < i < |l| ==> l[i] == l[1..][i - 1];
    }
  }

  // ---- The object ----

  class StrData {
    /** The list of strings, its front first. */
    var strings: seq<string>
    var curReaded: nat

    constructor ()
      ensures strings == [] && curReaded == 0
    {
      strings, curReaded := [], 0;
    }

    /** `strdata_push`. */
    method Push(v: Value) returns (r: int)
      modifies this`strings
      ensures r == 1 && strings == [ToString(v)] + old(strings)
    {
      strings := [ToString(v)] + strings;
      r := 1;
    }

    /** `strdata_pop`: the return value is 0 both for a value and for an exhausted list. */
    method Pop(t: Type) returns (r: int, found: bool, v: Value)
      modifies this`curReaded
      ensures r == 0 && curReaded == old(curReaded) + 1
      ensures found <==> old(curReaded) < |strings|
      ensures found ==> v == FromString(strings[old(curReaded)], t)
    {
      var i := curReaded;
      curReaded := curReaded + 1;
      if i >= |strings| {
        return 0, false, Str("");
      }
      return 0, true, FromString(strings[i], t);
    }

    /** `strdata_write`: the bytes after the size word. The list is emptied. */
    method Write() returns (message: string)
      modifies this`strings
      ensures message == Encode(old(strings)) && strings == []
    {
      message := "";
      for i := 0 to |strings|
        invariant strings == old(strings)
        invariant message + Encode(strings[i..]) == Encode(strings)
      {
        assert strings[i..][1..] == strings[i + 1..];
        assert message + (strings[i] + SEP + Encode(strings[i + 1..]))
            == message + strings[i] + SEP + Encode(strings[i + 1..]);
        message := message + strings[i];
        message := message + SEP;
      }
      strings := [];
    }

    /** `strdata_read` of a message that arrives whole. */
    method Read(message: string) returns (r: int)
      modifies this
      ensures strings == Reverse(Decode(message)) && curReaded == 0 && r == |strings|
    {
      hide Decode, Reverse;
      strings, curReaded := [], 0;
      DecodeEmpty();
      if |message| == 0 {
        return 0;
      }
      var n, j := 0, 0;
      ghost var read: seq<string> := [];
      assert message[0..] == message;
      while n < |message|
        invariant 0 <= n <= |message| && j == |strings| && curReaded == 0
        invariant strings == Reverse(read) && Decode(message) == read + Decode(message[n..])
        invariant n == |message| ==> message[n..] == ""
        decreases |message| - n
      {
        var k := StrStr(message, n);
        DecodeFrom(message, n);
        if k == |message| {
          break;
        }
        ReverseSnoc(read, message[n..k]);
        strings := [message[n..k]] + strings;
        read := read + [message[n..k]];
        n := k + 2;
        j := j + 1;
      }
      assert read + [] == read;
      return j;
    }
  }

  /** The search that strstr() makes from position n on. */
  method StrStr(s: string, n: nat) returns (k: nat)
    requires n <= |s|
    ensures k == FindSep(s, n)
  {
    k := n;
    while k < |s| && !SepAt(s, k)
      invariant n <= k <= |s| && FindSep(s, k) == FindSep(s, n)
    {
      k := k + 1;
    }
  }

  lemma FindSepFrom(s: string, n: nat)
    requires n <= |s|
    ensures FindSep(s, n) == n + FindSep(s[n..], 0)
  {
    var t := s[n..];
    forall j | 0 <= j <= |t| ensures SepAt(t, j) <==> SepAt(s, n + j) {
    }
    var k, q := FindSep(s, n), FindSep(t, 0);
    assert k < |s| ==> SepAt(t, k - n);
    assert q < |t| ==> SepAt(s, n + q);
  }

  /** What one turn of the reading loop splits off. */
  lemma DecodeFrom(s: string, n: nat)
    requires n < |s|
    ensures var k := FindSep(s, n);
            if k == |s| then Decode(s[n..]) == []
            else k + 2 <= |s| && Decode(s[n..]) == [s[n..k]] + Decode(s[k + 2..])
  {
    hide FindSep;
    FindSepFrom(s, n);
    var k := FindSep(s, n);
    if k < |s| {
      assert s[n..][..k - n] == s[n..k] && s[n..][k - n + 2..] == s[k + 2..];
    }
  }

  lemma DecodeEmpty()
    ensures Decode("") == [] && Reverse<string>([]) == []
  {
  }

  // ---- Values end to end ----

  function Texts(vs: seq<Value>): (l: seq<string>)
    ensures |l| == |vs|
    ensures forall i {:trigger l[i]} :: 0 <= i < |vs| ==> l[i] == ToString(vs[i])
  {
    seq(|vs|, i requires 0 <= i < |vs| => ToString(vs[i]))
  }

  lemma DigitsNoBar(n: nat, base: nat)
    requires base == 10 || base == 16
    ensures '|' !in Digits(n, base)
  {
    hide Digits, ParseDigits;
    DigitsRoundTrip(n, base);
    assert DigitValue('|') == 16;
  }

  lemma NoBarClean(s: string)
    requires '|' !in s
    ensures Clean(s)
  {
  }

  lemma NumberClean(v: Value)
    requires v.Number?
    ensures Clean(ToString(v))
  {
    hide Digits, Cast, Clean;
    var n := if v.t.Hex? then Cast(Hex, v.n) else Cast(Int, v.n);
    DigitsNoBar(if n < 0 then -n else n, if v.t.Hex? then 16 else 10);
    NoBarClean(ToString(v));
  }

  lemma TextsClean(vs: seq<Value>)
    requires forall i :: 0 <= i < |vs| && vs[i].Str? ==> Clean(vs[i].s)
    ensures AllClean(Texts(vs))
  {
    hide Clean;
    forall i | 0 <= i < |vs| ensures Clean(Texts(vs)[i]) {
      if vs[i].Number? { NumberClean(vs[i]); }
    }
  }

  /** Push all, write, read, pop all: the same values in push order, if every string value is clean. */
  method Transfer(vs: seq<Value>) returns (out: seq<Value>)
    requires forall i :: 0 <= i < |vs| ==> InRange(vs[i]) && (vs[i].Str? ==> Clean(vs[i].s))
    ensures out == vs
  {
    hide Decode, Encode, Reverse, ToString, FromString, Clean, InRange;
    var sender := new StrData();
    var receiver := new StrData();
    var r: int;
    DecodeEmpty();
    for i := 0 to |vs|
      invariant sender.strings == Reverse(Texts(vs[..i]))
      invariant fresh(sender) && fresh(receiver) && sender != receiver
    {
      r := sender.Push(vs[i]);
      assert Texts(vs[..i + 1]) == Texts(vs[..i]) + [ToString(vs[i])];
      ReverseSnoc(Texts(vs[..i]), ToString(vs[i]));
    }
    assert vs[..|vs|] == vs;
    var message := sender.Write();
    r := receiver.Read(message);
    TextsClean(vs);
    ReceivedIff(Texts(vs));
    out := [];
    for i := 0 to |vs|
      invariant fresh(receiver) && receiver.strings == Texts(vs) && receiver.curReaded == i
      invariant out == vs[..i]
    {
      var code, found, v := receiver.Pop(TypeOf(vs[i]));
      ParamRoundTrip(vs[i]);
      out := out + [v];
    }
  }
}
