/**
 Strings and lists of strings in packet buffers: `str` objects, which hold a
 length and a character array, and the unhashed `Set`, a list that puts every
 new member in front. A packet is written and read through a cursor that
 advances in a byte buffer.
 */
module Packets {
  import opened Lists

  const MAX_STRING_LEN := 128

  type Byte = n: nat | n < 256

  // ---- str objects ----

  /** What strlen() finds from position i on; the length of s if there is no NUL. */
  function Nul(s: seq<Byte>, i: nat): (k: nat)
    requires i <= |s|
    ensures i <= k <= |s|
    ensures k < |s| ==> s[k] == 0
    ensures forall j :: i <= j < k ==> s[j] != 0
    decreases |s| - i
  {
    if i == |s| || s[i] == 0 then i else Nul(s, i + 1)
  }

  /** The text of a C string: no NUL inside. */
  predicate IsText(s: seq<Byte>) {
    forall j :: 0 <= j < |s| ==> s[j] != 0
  }

  /** A str object: its character array and its length field. */
  datatype StrVal = StrVal(chars: seq<Byte>, len: nat)

  predicate IsStrVal(o: StrVal) {
    |o.chars| == MAX_STRING_LEN && o.len < MAX_STRING_LEN && Nul(o.chars, 0) < MAX_STRING_LEN
  }

  /** The characters up to the first NUL. */
  function TextOf(o: StrVal): (t: seq<Byte>)
    ensures |t| <= |o.chars| && IsText(t)
  {
    o.chars[..Nul(o.chars, 0)]
  }

  /** The length field is the length of the text. */
  predicate LenRight(o: StrVal) {
    o.len == |TextOf(o)|
  }

  /** A string that a str object can hold. */
  predicate IsStr(s: seq<Byte>) {
    |s| < MAX_STRING_LEN && IsText(s)
  }

  function NewVal(): StrVal {
    StrVal(seq(MAX_STRING_LEN, _ => 0), 0)
  }

  /** What `str_set` makes of an object, and what it returns. */
  function SetVal(o: StrVal, src: seq<Byte>): (r: (StrVal, int))
    requires |o.chars| == MAX_STRING_LEN
  {
    if |src| == 0 then (o, 1)
    else if |src| + 1 > MAX_STRING_LEN then (o, 0)
    else (StrVal(src + [0] + o.chars[|src| + 1..], if o.len != |src| + 1 then |src| else o.len), |src| + 1)
  }

  /** `str_snew`. */
  function FreshVal(src: seq<Byte>): StrVal {
    SetVal(NewVal(), src).0
  }

  lemma TextIs(chars: seq<Byte>, src: seq<Byte>)
    requires |src| < |chars| && chars[..|src|] == src && chars[|src|] == 0 && IsText(src)
    ensures Nul(chars, 0) == |src| && chars[..Nul(chars, 0)] == src
  {
    forall j | 0 <= j < |src| ensures chars[j] != 0 {
      assert chars[..|src|][j] == src[j];
    }
  }

  /**
   Setting a string makes it the text. The length field then is right exactly
   when it did not hold one more than the new length before; in that case it
   stays one too large.
   */
  lemma SetLenIff(o: StrVal, src: seq<Byte>)
    requires IsStrVal(o) && IsStr(src) && |src| > 0
    ensures var o1 := SetVal(o, src).0;
            && IsStrVal(o1) && TextOf(o1) == src
            && (LenRight(o1) <==> o.len != |src| + 1)
            && (o.len == |src| + 1 ==> o1.len == |src| + 1)
            && o1.chars[|src| + 1..] == o.chars[|src| + 1..]
  {
    TextIs(SetVal(o, src).0.chars, src);
  }

  /** A fresh object has the text and the length of its string. */
  lemma FreshRight(src: seq<Byte>)
    requires IsStr(src)
    ensures var o := FreshVal(src); IsStrVal(o) && TextOf(o) == src && LenRight(o) && o.len == |src|
  {
    assert NewVal().chars[0] == 0;
    TextIs(NewVal().chars, []);
    if |src| > 0 {
      SetLenIff(NewVal(), src);
    }
  }

  lemma Overwritten(was: seq<Byte>, now: seq<Byte>, src: seq<Byte>)
    requires |was| == |now| > |src| && now[|src|] == 0
    requires forall k :: 0 <= k < |src| ==> now[k] == src[k]
    requires forall k :: |src| < k < |was| ==> now[k] == was[k]
    ensures now == src + [0] + was[|src| + 1..]
  {
  }

  class Str {
    const chars: array<Byte>
    var len: nat

    constructor ()
      ensures Valid() && Contents() == NewVal() && fresh(chars)
    {
      chars := new Byte[MAX_STRING_LEN](_ => 0);
      len := 0;
      new;
      assert chars[..] == NewVal().chars;
      TextIs(chars[..], []);
    }

    ghost function Contents(): StrVal
      reads this, chars
    {
      StrVal(chars[..], len)
    }

    ghost predicate Valid()
      reads this, chars
    {
      IsStrVal(Contents())
    }

    /**
     `str_set`. The empty string is accepted and changes nothing; a string too
     long is refused. The length field is not updated when it happens to be one
     more than the new length.
     */
    method Set(src: seq<Byte>) returns (r: int)
      requires Valid() && IsText(src)
      modifies this`len, chars
      ensures Valid() && (Contents(), r) == SetVal(old(Contents()), src)
      ensures r == 0 <==> |src| >= MAX_STRING_LEN
      ensures r == 1 <==> |src| == 0
      ensures 0 < |src| < MAX_STRING_LEN ==> r == |src| + 1
      ensures |src| == 0 || |src| >= MAX_STRING_LEN ==> Contents() == old(Contents())
      ensures 0 < |src| < MAX_STRING_LEN ==> TextOf(Contents()) == src
      ensures 0 < |src| < MAX_STRING_LEN ==> (LenRight(Contents()) <==> old(len) != |src| + 1)
    {
      if |src| == 0 {
        return 1;
      }
      var srcLen := |src| + 1;
      if srcLen > MAX_STRING_LEN || srcLen <= 1 {
        return 0;
      }
      SetLenIff(Contents(), src);
      if len != srcLen {
        len := srcLen - 1;
      }
      ghost var was := chars[..];
      for i := 0 to |src|
        invariant forall k :: 0 <= k < i ==> chars[k] == src[k]
        invariant forall k :: i <= k < MAX_STRING_LEN ==> chars[k] == was[k]
        invariant len == if old(len) != srcLen then srcLen - 1 else srcLen
      {
        chars[i] := src[i];
      }
      chars[|src|] := 0;
      Overwritten(was, chars[..], src);
      return srcLen;
    }

    /** `str_get`: at most maxLen - 1 characters and a NUL; -1 for an empty object. */
    method Get(dst: array<Byte>, maxLen: nat) returns (r: int)
      requires Valid() && dst != chars && 0 < maxLen <= dst.Length
      modifies dst
      ensures len == 0 ==> r == -1 && dst[..] == old(dst[..])
      ensures len > 0 ==> var n := if len + 1 > maxLen then maxLen - 1 else len;
                          r == n + 1 && dst[..] == chars[..n] + [0] + old(dst[n + 1..])
    {
      if len == 0 {
        return -1;
      }
      var dstLen := len;
      if dstLen + 1 > maxLen {
        dstLen := maxLen - 1;
      }
      for i := 0 to dstLen
        invariant forall k :: 0 <= k < i ==> dst[k] == chars[k]
        invariant forall k :: i <= k < dst.Length ==> dst[k] == old(dst[k])
      {
        dst[i] := chars[i];
      }
      dst[dstLen] := 0;
      assert dst[..dstLen] == chars[..dstLen] && dst[dstLen + 1..] == old(dst[dstLen + 1..]);
      assert dst[..] == dst[..dstLen] + [0] + dst[dstLen + 1..];
      return dstLen + 1;
    }
  }

  // ---- Packets ----

  predicate AllStr(l: seq<seq<Byte>>) {
    forall i :: 0 <= i < |l| ==> IsStr(l[i])
  }

  predicate AllVals(l: seq<StrVal>) {
    forall i :: 0 <= i < |l| ==> IsStrVal(l[i])
  }

  /** Every member's length field is the length of its text. */
  predicate AllLenRight(l: seq<StrVal>) {
    forall i :: 0 <= i < |l| ==> LenRight(l[i])
  }

  function Texts(l: seq<StrVal>): (t: seq<seq<Byte>>)
    ensures |t| == |l|
    ensures forall i {:trigger t[i]} :: 0 <= i < |l| ==> t[i] == TextOf(l[i])
  {
    seq(|l|, i requires 0 <= i < |l| => TextOf(l[i]))
  }

  /** What each member writes: as many characters as its length field says. */
  function Prefixes(l: seq<StrVal>): (t: seq<seq<Byte>>)
    requires AllVals(l)
    ensures |t| == |l|
    ensures forall i {:trigger t[i]} :: 0 <= i < |l| ==> t[i] == l[i].chars[..l[i].len] && |t[i]| == l[i].len
  {
    seq(|l|, i requires 0 <= i < |l| => l[i].chars[..l[i].len])
  }

  function Strings(l: seq<seq<Byte>>): (p: seq<Byte>) {
    if |l| == 0 then [] else l[0] + [0] + Strings(l[1..])
  }

  /** The packet of a list: its length, then what every member writes, each with a NUL. */
  function Packet(l: seq<StrVal>): (p: seq<Byte>)
    requires |l| <= 127 && AllVals(l)
    ensures |p| == 1 + |Strings(Prefixes(l))|
  {
    [|l| as Byte] + Strings(Prefixes(l))
  }

  /**
   How reading a list can end: a null result, a failed assertion, a read C does
   not define, or the texts of the fresh objects and the cursor behind them.
   */
  datatype Outcome = Null | Aborted | Undefined | List(members: seq<seq<Byte>>, next: nat)

  /** The loop of `Set_newfrompkt`: `left` strings from `start` on are put in front of `done`. */
  function ReadStrings(buf: seq<Byte>, start: nat, end: nat, left: nat, done: seq<seq<Byte>>): (o: Outcome)
    requires start <= |buf|
    ensures o.List? ==> start <= o.next <= |buf|
    decreases left
  {
    if left == 0 then List(done, start)
    else if start > end then Aborted
    else if start == end then Null
    else
      var k := Nul(buf, start);
      if k == |buf| || k - start >= MAX_STRING_LEN then Undefined
      else ReadStrings(buf, k + 1, end, left - 1, [buf[start..k]] + done)
  }

  /** `Set_newfrompkt` with `str_newfrompkt`. A length byte of 128 or more is a negative char. */
  function ReadList(buf: seq<Byte>, start: nat, end: nat): Outcome
    requires start <= end <= |buf|
  {
    if end == start then Null
    else ReadStrings(buf, start + 1, end, if buf[start] < 128 then buf[start] else 0, [])
  }

  /** The packet p stands in buf at position i. */
  predicate Holds(buf: seq<Byte>, i: nat, p: seq<Byte>) {
    i + |p| <= |buf| && buf[i..i + |p|] == p
  }

  lemma NulOfHead(buf: seq<Byte>, start: nat, s: seq<Byte>, rest: seq<Byte>)
    requires IsText(s) && Holds(buf, start, s + [0] + rest)
    ensures Nul(buf, start) == start + |s| && buf[start..start + |s|] == s
    ensures Holds(buf, start + |s| + 1, rest)
  {
    var p := s + [0] + rest;
    assert buf[start..start + |p|][..|s|] == s;
    assert buf[start..start + |p|][|s|] == 0;
    assert buf[start..start + |p|][|s| + 1..] == rest;
    assert buf[start..start + |s|] == s;
    forall j | start <= j < start + |s| ensures buf[j] != 0 {
      assert buf[j] == buf[start..start + |s|][j - start];
    }
    assert buf[start + |s| + 1..start + |p|] == rest;
  }

  lemma {:induction false} ReadBack(buf: seq<Byte>, start: nat, end: nat, l: seq<seq<Byte>>, done: seq<seq<Byte>>)
    requires AllStr(l) && Holds(buf, start, Strings(l)) && start + |Strings(l)| <= end
    ensures ReadStrings(buf, start, end, |l|, done) == List(Reverse(l) + done, start + |Strings(l)|)
    decreases |l|
  {
    hide Nul, IsText, Holds;
    if |l| > 0 {
      NulOfHead(buf, start, l[0], Strings(l[1..]));
      ReadBack(buf, start + |l[0]| + 1, end, l[1..], [l[0]] + done);
      assert Reverse(l[1..]) + ([l[0]] + done) == Reverse(l) + done;
    } else {
      assert Reverse(l) + done == done;
    }
  }

  /** A packet of members that write their texts is read back reversed, to its last byte. */
  lemma ReadPacket(buf: seq<Byte>, start: nat, end: nat, l: seq<StrVal>)
    requires |l| <= 127 && AllVals(l) && AllStr(Prefixes(l))
    requires Holds(buf, start, Packet(l)) && start + |Packet(l)| <= end <= |buf|
    ensures ReadList(buf, start, end) == List(Reverse(Prefixes(l)), start + |Packet(l)|)
  {
    var p, strs := Packet(l), Prefixes(l);
    PacketHead(buf, start, l);
    ReadBack(buf, start + 1, end, strs, []);
    assert Reverse(strs) + [] == Reverse(strs);
  }

  lemma PacketHead(buf: seq<Byte>, start: nat, l: seq<StrVal>)
    requires |l| <= 127 && AllVals(l) && Holds(buf, start, Packet(l))
    ensures buf[start] == |l| && Holds(buf, start + 1, Strings(Prefixes(l)))
  {
    hide Strings;
    var p := Packet(l);
    assert buf[start] == buf[start..start + |p|][0] == |l|;
    assert buf[start + 1..start + |p|] == buf[start..start + |p|][1..] == Strings(Prefixes(l));
  }

  // ---- Packets that are cut ----

  /** Where member m of a packet at position start begins. */
  function MemberAt(strs: seq<seq<Byte>>, start: nat, m: nat): nat
    requires m <= |strs|
  {
    start + |Strings(strs[..m])|
  }

  /** Reading stops where the list is cut, and what follows depends on how many members are left. */
  lemma {:induction false} ReadCut(buf: seq<Byte>, start: nat, end: nat, l: seq<seq<Byte>>, done: seq<seq<Byte>>, m: nat)
    requires AllStr(l) && Holds(buf, start, Strings(l)) && m < |l|
    requires MemberAt(l, start, m) <= end < MemberAt(l, start, m + 1)
    ensures ReadStrings(buf, start, end, |l|, done)
            == if end == MemberAt(l, start, m) then Null
               else if m + 1 < |l| then Aborted
               else List(Reverse(l) + done, start + |Strings(l)|)
    decreases |l|
  {
    hide Nul, IsText, Holds, Strings;
    MembersOf(l, start, m);
    var next := start + |l[0]| + 1;
    if end > start {
      NulOfHeadOf(buf, start, l);
      if m > 0 {
        ReadCut(buf, next, end, l[1..], [l[0]] + done, m - 1);
      } else if |l| == 1 {
        assert ReadStrings(buf, next, end, 0, [l[0]] + done) == List([l[0]] + done, next);
      }
      assert Reverse(l[1..]) + ([l[0]] + done) == Reverse(l) + done;
      assert |l| == 1 ==> Reverse(l[1..]) == [];
    }
  }

  lemma NulOfHeadOf(buf: seq<Byte>, start: nat, l: seq<seq<Byte>>)
    requires AllStr(l) && |l| > 0 && Holds(buf, start, Strings(l))
    ensures Nul(buf, start) == start + |l[0]| < |buf| && buf[start..start + |l[0]|] == l[0] && |l[0]| < MAX_STRING_LEN
    ensures Holds(buf, start + |l[0]| + 1, Strings(l[1..])) && start + |l[0]| + 1 <= |buf|
  {
    hide Nul, IsText;
    NulOfHead(buf, start, l[0], Strings(l[1..]));
  }

  /** The members of a list and of its tail begin at the same places. */
  lemma MembersOf(l: seq<seq<Byte>>, start: nat, m: nat)
    requires |l| > 0 && m < |l|
    ensures var next := start + |l[0]| + 1;
            && MemberAt(l, start, 0) == start && MemberAt(l, start, 1) == next
            && start + |Strings(l)| == next + |Strings(l[1..])|
            && (m > 0 ==> MemberAt(l, start, m) == MemberAt(l[1..], next, m - 1) >= next)
            && MemberAt(l, start, m + 1) == MemberAt(l[1..], next, m) >= next
            && (|l| == 1 ==> Strings(l[1..]) == [])
  {
    assert l[..0] == [] && l[..1][1..] == [];
    assert m > 0 ==> l[..m][1..] == l[1..][..m - 1] && l[..m][0] == l[0];
    assert l[..m + 1][1..] == l[1..][..m] && l[..m + 1][0] == l[0];
  }

  /**
   A packet that is cut short. At a cut between two members the result is null,
   at one inside a member that is not the last the assertion fails, and a cut
   inside the last member is not noticed: reading goes on behind the end.
   */
  lemma CutPacket(buf: seq<Byte>, start: nat, end: nat, l: seq<StrVal>, m: nat)
    requires |l| <= 127 && AllVals(l) && AllLenRight(l) && m < |l| && Holds(buf, start, Packet(l))
    requires MemberAt(Texts(l), start + 1, m) <= end < MemberAt(Texts(l), start + 1, m + 1) && end <= |buf|
    ensures ReadList(buf, start, end)
            == if end == MemberAt(Texts(l), start + 1, m) then Null
               else if m + 1 < |l| then Aborted
               else List(Reverse(Texts(l)), start + |Packet(l)|)
  {
    hide ReadStrings, Reverse, Strings, IsStrVal, LenRight, TextOf, IsStr;
    PrefixesAreTextsIff(l);
    PacketHead(buf, start, l);
    ReadCut(buf, start + 1, end, Texts(l), [], m);
    assert Reverse(Texts(l)) + [] == Reverse(Texts(l));
  }

  /** A cut before the length gives null, a length of 128 or more an empty list, and a text without a NUL is undefined. */
  lemma OtherPackets(buf: seq<Byte>, start: nat, end: nat)
    requires start <= end <= |buf|
    ensures end == start ==> ReadList(buf, start, end) == Null
    ensures end > start && (buf[start] == 0 || buf[start] >= 128) ==> ReadList(buf, start, end) == List([], start + 1)
    ensures end > start + 1 && 0 < buf[start] < 128 && IsText(buf[start + 1..]) ==> ReadList(buf, start, end) == Undefined
  {
    if end > start + 1 && IsText(buf[start + 1..]) {
      forall j | start + 1 <= j < |buf| ensures buf[j] != 0 {
        assert buf[j] == buf[start + 1..][j - start - 1];
      }
    }
  }

  // ---- When a round trip succeeds ----

  /** The number of NULs. */
  function Nuls(s: seq<Byte>): nat {
    if |s| == 0 then 0 else (if s[0] == 0 then 1 else 0) + Nuls(s[1..])
  }

  lemma {:induction false} NulsAppend(a: seq<Byte>, b: seq<Byte>)
    ensures Nuls(a + b) == Nuls(a) + Nuls(b)
    decreases |a|
  {
    if |a| == 0 {
      assert a + b == b;
    } else {
      assert (a + b)[1..] == a[1..] + b;
      NulsAppend(a[1..], b);
    }
  }

  lemma {:induction false} NulsOfText(s: seq<Byte>)
    ensures Nuls(s) == 0 <==> IsText(s)
  {
    if |s| > 0 {
      NulsOfText(s[1..]);
      if IsText(s[1..]) && s[0] != 0 {
        forall j | 0 <= j < |s| ensures s[j] != 0 {
          assert j > 0 ==> s[1..][j - 1] == s[j];
        }
      }
    }
  }

  lemma NulsOfString(s: seq<Byte>, rest: seq<Byte>)
    ensures Nuls(s + [0] + rest) == Nuls(s) + 1 + Nuls(rest)
  {
    hide Nuls;
    NulsAppend(s + [0], rest);
    NulsAppend(s, [0]);
    OneNul();
  }

  lemma OneNul()
    ensures Nuls([0]) == 1
  {
  }

  /** Each string of a list puts one NUL into the packet, and the ones inside it on top. */
  lemma {:induction false} NulsOfStrings(l: seq<seq<Byte>>)
    ensures Nuls(Strings(l)) >= |l|
    ensures Nuls(Strings(l)) == |l| <==> forall i :: 0 <= i < |l| ==> IsText(l[i])
  {
    hide Nuls, IsText;
    if |l| == 0 {
      NoNul();
    } else {
      NulsOfStrings(l[1..]);
      NulsOfString(l[0], Strings(l[1..]));
      NulsOfText(l[0]);
      if forall i :: 0 <= i < |l| ==> IsText(l[i]) {
        forall i | 0 <= i < |l[1..]| ensures IsText(l[1..][i]) {
          assert l[1..][i] == l[i + 1];
        }
      }
      if IsText(l[0]) && forall i :: 0 <= i < |l[1..]| ==> IsText(l[1..][i]) {
        forall i | 0 <= i < |l| ensures IsText(l[i]) {
          assert i > 0 ==> l[i] == l[1..][i - 1];
        }
      }
    }
  }

  lemma NoNul()
    ensures Nuls([]) == 0 && Strings([]) == []
  {
  }

  /** Reading `left` strings passes exactly `left` NULs. */
  lemma {:induction false} NulsRead(buf: seq<Byte>, start: nat, end: nat, left: nat, done: seq<seq<Byte>>)
    requires start <= |buf| && ReadStrings(buf, start, end, left, done).List?
    ensures Nuls(buf[start..ReadStrings(buf, start, end, left, done).next]) == left
    decreases left
  {
    hide Nuls;
    var next := ReadStrings(buf, start, end, left, done).next;
    if left == 0 {
      assert buf[start..next] == [];
      NoNul();
    } else {
      var k := Nul(buf, start);
      NulsRead(buf, k + 1, end, left - 1, [buf[start..k]] + done);
      assert buf[start..next] == buf[start..k] + [0] + buf[k + 1..next];
      NulsOfString(buf[start..k], buf[k + 1..next]);
      NulsOfText(buf[start..k]);
    }
  }

  /** A length that is right, seen from what the member writes. */
  lemma PrefixIsTextIff(o: StrVal)
    requires IsStrVal(o)
    ensures LenRight(o) <==> o.chars[..o.len] == TextOf(o)
    ensures IsText(o.chars[..o.len]) <==> o.len <= |TextOf(o)|
    ensures LenRight(o) ==> IsStr(o.chars[..o.len])
  {
    var k := Nul(o.chars, 0);
    if o.len > k {
      assert o.chars[..o.len][k] == 0;
    }
  }

  lemma PrefixesAreTextsIff(l: seq<StrVal>)
    requires AllVals(l)
    ensures AllLenRight(l) <==> Prefixes(l) == Texts(l)
    ensures AllLenRight(l) ==> AllStr(Prefixes(l))
  {
    hide TextOf, LenRight, IsStrVal, IsStr;
    forall i | 0 <= i < |l|
      ensures LenRight(l[i]) <==> Prefixes(l)[i] == Texts(l)[i]
      ensures LenRight(l[i]) ==> IsStr(Prefixes(l)[i])
    {
      PrefixIsTextIff(l[i]);
    }
  }

  /**
   Reading a packet consumes exactly its bytes and gives the texts of the list,
   reversed, exactly when every member's length field is the length of its text.
   */
  lemma RoundTripIff(buf: seq<Byte>, start: nat, end: nat, l: seq<StrVal>)
    requires |l| <= 127 && AllVals(l)
    requires Holds(buf, start, Packet(l)) && start + |Packet(l)| <= end <= |buf|
    ensures ReadList(buf, start, end) == List(Reverse(Texts(l)), start + |Packet(l)|) <==> AllLenRight(l)
  {
    hide Packet, ReadStrings, Reverse, Nuls, Strings, IsStrVal, LenRight, TextOf;
    PrefixesAreTextsIff(l);
    if AllLenRight(l) {
      ReadPacket(buf, start, end, l);
    }
    if ReadList(buf, start, end) == List(Reverse(Texts(l)), start + |Packet(l)|) {
      PacketHead(buf, start, l);
      NulsRead(buf, start + 1, end, |l|, []);
      NulsOfStrings(Prefixes(l));
      AllTextsAllStr(l);
      ReadPacket(buf, start, end, l);
      ReverseInjective(Prefixes(l), Texts(l));
    }
  }

  lemma AllTextsAllStr(l: seq<StrVal>)
    requires AllVals(l) && forall i :: 0 <= i < |l| ==> IsText(Prefixes(l)[i])
    ensures AllStr(Prefixes(l))
  {
  }

  /**
   A list on which it fails: an object that was set to "ab" and then to "a"
   holds 2 in its length field. Reading stops one member early, inside the
   packet, and gives an empty string in place of "b".
   */
  lemma StaleLength()
    ensures var a, b := SetVal(FreshVal([97, 98]), [97]).0, FreshVal([98]);
            && AllVals([a, b]) && TextOf(a) == [97] && a.len == 2 && TextOf(b) == [98]
            && Packet([a, b]) == [2, 97, 0, 0, 98, 0]
            && ReadList(Packet([a, b]), 0, 6) == List([[], [97]], 4)
  {
    hide ReadStrings, Strings, IsStrVal, TextOf, Nul;
    var ab, a, b := FreshVal([97, 98]), SetVal(FreshVal([97, 98]), [97]).0, FreshVal([98]);
    FreshRight([97, 98]);
    FreshRight([98]);
    SetLenIff(ab, [97]);
    assert a.chars[..2] == [97, 0] && b.chars[..1] == [98];
    assert Prefixes([a, b]) == [[97, 0], [98]];
    StaleBytes();
  }

  lemma StaleBytes()
    ensures Strings([[97, 0], [98]]) == [97, 0, 0, 98, 0]
    ensures ReadList([2, 97, 0, 0, 98, 0], 0, 6) == List([[], [97]], 4)
  {
    assert [[97, 0], [98]][1..] == [[98]];
    var buf: seq<Byte> := [2, 97, 0, 0, 98, 0];
    assert Nul(buf, 1) == 2 && Nul(buf, 3) == 3;
    assert buf[1..2] == [97] && buf[3..3] == [];
    assert ReadStrings(buf, 4, 6, 0, [[], [97]]) == List([[], [97]], 4);
    assert ReadStrings(buf, 3, 6, 1, [[97]]) == List([[], [97]], 4);
    assert ReadStrings(buf, 1, 6, 2, []) == List([[], [97]], 4);
  }

  function FreshAll(l: seq<seq<Byte>>): (r: seq<StrVal>)
    ensures |r| == |l|
    ensures forall i {:trigger r[i]} :: 0 <= i < |l| ==> r[i] == FreshVal(l[i])
  {
    seq(|l|, i requires 0 <= i < |l| => FreshVal(l[i]))
  }

  /** What was read is made of fresh objects, so it can always be sent on. */
  lemma FreshAllRight(l: seq<seq<Byte>>)
    requires AllStr(l)
    ensures AllVals(FreshAll(l)) && AllLenRight(FreshAll(l)) && Texts(FreshAll(l)) == l
  {
    hide IsStr, IsStrVal, LenRight, TextOf, FreshVal;
    forall i | 0 <= i < |l|
      ensures IsStrVal(FreshAll(l)[i]) && LenRight(FreshAll(l)[i]) && Texts(FreshAll(l))[i] == l[i]
    {
      FreshRight(l[i]);
    }
  }

  /** Sending on what was read gives the texts back in order: two round trips are the identity. */
  lemma TwoRoundTrips(buf1: seq<Byte>, i1: nat, buf2: seq<Byte>, i2: nat, l: seq<StrVal>)
    requires |l| <= 127 && AllVals(l) && AllLenRight(l) && Holds(buf1, i1, Packet(l))
    ensures var o := ReadList(buf1, i1, |buf1|);
            && o.List? && |o.members| <= 127 && AllVals(FreshAll(o.members))
            && (Holds(buf2, i2, Packet(FreshAll(o.members))) ==>
                var o2 := ReadList(buf2, i2, |buf2|); o2.List? && o2.members == Texts(l))
  {
    hide Packet, ReadList, Reverse, IsStrVal, LenRight, TextOf, IsStr;
    RoundTripIff(buf1, i1, |buf1|, l);
    PrefixesAreTextsIff(l);
    var back := Reverse(Texts(l));
    ReverseAllStr(Texts(l));
    FreshAllRight(back);
    if Holds(buf2, i2, Packet(FreshAll(back))) {
      RoundTripIff(buf2, i2, |buf2|, FreshAll(back));
      ReverseTwice(Texts(l));
    }
  }

  lemma {:induction false} ReverseAllStr(l: seq<seq<Byte>>)
    requires AllStr(l)
    ensures AllStr(Reverse(l))
  {
    if |l| > 0 { ReverseAllStr(l[1..]); }
  }

  // ---- Writing and reading through the cursor ----

  /** b with the bytes p at position i. */
  function Patch(b: seq<Byte>, i: nat, p: seq<Byte>): (r: seq<Byte>)
    requires i + |p| <= |b|
    ensures |r| == |b| && Holds(r, i, p)
  {
    b[..i] + p + b[i + |p|..]
  }

  lemma PatchMore(b: seq<Byte>, i: nat, p: seq<Byte>, q: seq<Byte>)
    requires i + |p| + |q| <= |b|
    ensures Patch(Patch(b, i, p), i + |p|, q) == Patch(b, i, p + q)
  {
  }

  lemma {:induction false} StringsAppend(a: seq<seq<Byte>>, b: seq<seq<Byte>>)
    ensures Strings(a + b) == Strings(a) + Strings(b)
  {
    if |a| == 0 {
      assert a + b == b;
    } else {
      assert (a + b)[1..] == a[1..] + b;
      StringsAppend(a[1..], b);
    }
  }

  lemma StringsTake(l: seq<seq<Byte>>, i: nat)
    requires i < |l|
    ensures Strings(l[..i + 1]) == Strings(l[..i]) + (l[i] + [0])
    ensures |Strings(l[..i + 1])| <= |Strings(l)|
  {
    assert l[..i + 1] == l[..i] + [l[i]] && l == l[..i + 1] + l[i + 1..];
    StringsAppend(l[..i], [l[i]]);
    StringsAppend(l[..i + 1], l[i + 1..]);
    assert Strings([l[i]]) == l[i] + [0] + Strings([]);
  }

  method WriteBytes(buf: array<Byte>, start: nat, p: seq<Byte>)
    requires start + |p| <= buf.Length
    modifies buf
    ensures buf[..] == Patch(old(buf[..]), start, p)
  {
    hide Patch, Holds;
    PatchNothing(buf[..], start);
    assert p[..0] == [];
    for i := 0 to |p|
      invariant buf[..] == Patch(old(buf[..]), start, p[..i])
    {
      PatchMore(old(buf[..]), start, p[..i], [p[i]]);
      assert p[..i] + [p[i]] == p[..i + 1];
      PatchOne(buf[..], start + i, p[i]);
      ghost var was := buf[..];
      buf[start + i] := p[i];
      assert buf[..] == was[start + i := p[i]];
    }
    assert p[..|p|] == p;
  }

  lemma PatchNothing(b: seq<Byte>, i: nat)
    requires i <= |b|
    ensures Patch(b, i, []) == b
  {
  }

  lemma PatchOne(b: seq<Byte>, i: nat, x: Byte)
    requires i < |b|
    ensures Patch(b, i, [x]) == b[i := x]
  {
  }

  /** `str_topkt`: as many characters as the length field says, and a NUL; all or nothing. */
  method StrToPkt(o: StrVal, buf: array<Byte>, start: nat, end: nat) returns (ok: bool, next: nat)
    requires IsStrVal(o) && start <= end <= buf.Length
    modifies buf
    ensures ok <==> o.len + 1 <= end - start
    ensures ok ==> next == start + o.len + 1 && buf[..] == Patch(old(buf[..]), start, o.chars[..o.len] + [0])
    ensures !ok ==> next == start && buf[..] == old(buf[..])
  {
    hide Patch, Holds;
    next := start;
    if end - start < o.len + 1 {
      return false, next;
    }
    PatchOne(buf[..], start, 0);
    if o.len == 0 {
      ghost var was := buf[..];
      buf[start] := 0;
      assert buf[..] == was[start := 0];
      assert o.chars[..0] + [0] == [0];
      return true, start + 1;
    }
    WriteBytes(buf, start, o.chars[..o.len]);
    PatchMore(old(buf[..]), start, o.chars[..o.len], [0]);
    PatchOne(buf[..], start + o.len, 0);
    ghost var was := buf[..];
    buf[start + o.len] := 0;
    assert buf[..] == was[start + o.len := 0];
    return true, start + o.len + 1;
  }

  /** `Set_topkt` with `str_topkt`: it succeeds exactly when the packet fits. */
  method SetToPkt(l: seq<StrVal>, buf: array<Byte>, start: nat, end: nat) returns (ok: bool, next: nat)
    requires start <= end <= buf.Length && AllVals(l)
    modifies buf
    ensures ok <==> |l| <= 127 && |Packet(l)| <= end - start
    ensures ok ==> next == start + |Packet(l)| && buf[..] == Patch(old(buf[..]), start, Packet(l))
    ensures forall k :: 0 <= k < start || end <= k < buf.Length ==> buf[k] == old(buf[k])
  {
    hide Patch, Holds, Strings, IsStrVal;
    next := start;
    if end == start {
      return false, next;
    }
    if |l| > 127 {
      return false, next;
    }
    var length: Byte := |l|;
    PatchOne(buf[..], start, length);
    ghost var was, strs := buf[..], Prefixes(l);
    buf[start] := length;
    assert buf[..] == was[start := length];
    next := next + 1;
    NoStrings(length, strs);
    for i := 0 to |l|
      invariant next == start + 1 + |Strings(strs[..i])| <= end
      invariant buf[..] == Patch(old(buf[..]), start, [length] + Strings(strs[..i]))
    {
      StringsTake(strs, i);
      PatchFrame(old(buf[..]), start, [length] + Strings(strs[..i]), end);
      ok, next := StrToPkt(l[i], buf, next, end);
      if !ok {
        return false, next;
      }
      PatchMore(old(buf[..]), start, [length] + Strings(strs[..i]), strs[i] + [0]);
      assert [length] + Strings(strs[..i]) + (strs[i] + [0]) == [length] + Strings(strs[..i + 1]);
    }
    assert strs[..|l|] == strs;
    PatchFrame(old(buf[..]), start, Packet(l), end);
    ok := true;
  }

  lemma NoStrings(length: Byte, l: seq<seq<Byte>>)
    ensures Strings(l[..0]) == [] && [length] + Strings(l[..0]) == [length]
  {
  }

  lemma PatchFrame(b: seq<Byte>, i: nat, p: seq<Byte>, end: nat)
    requires i + |p| <= end <= |b|
    ensures forall k :: 0 <= k < i || end <= k < |b| ==> Patch(b, i, p)[k] == b[k]
  {
  }

  /** `Set_newfrompkt` with `str_newfrompkt`. */
  method SetFromPkt(buf: array<Byte>, start: nat, end: nat) returns (o: Outcome)
    requires start <= end <= buf.Length
    ensures o == ReadList(buf[..], start, end)
  {
    hide Nul;
    if end == start {
      return Null;
    }
    var members: seq<seq<Byte>> := [];
    var cursor: nat := start + 1;
    var len: nat := if buf[start] < 128 then buf[start] else 0;
    for i := 0 to len
      invariant cursor <= buf.Length
      invariant ReadStrings(buf[..], cursor, end, len - i, members) == ReadList(buf[..], start, end)
    {
      if cursor > end {
        return Aborted;
      }
      if cursor == end {
        return Null;
      }
      var k: nat := StrLen(buf, cursor);
      if k == buf.Length || k - cursor >= MAX_STRING_LEN {
        return Undefined;
      }
      members := [buf[cursor..k]] + members;
      cursor := k + 1;
    }
    o := List(members, cursor);
  }

  /** The position of the first NUL from `from` on. */
  method StrLen(buf: array<Byte>, from: nat) returns (k: nat)
    requires from <= buf.Length
    ensures k == Nul(buf[..], from)
  {
    k := from;
    while k < buf.Length && buf[k] != 0
      invariant from <= k <= buf.Length
      invariant Nul(buf[..], k) == Nul(buf[..], from)
    {
      k := k + 1;
    }
  }
}
