/**
 The configuration parser of utils: a cursor moves line by line over a text of
 nested sections and name=value lines. Keys and sections are put in front of
 their lists, so a parsed tree is the written one with every list reversed.
 Texts hold no NUL.
 */
module CfgParser {
  import opened Lists

  const LINE_LEN := 168
  const MAX_STRING_LEN := 128
  const TITLE_DEFAULT := "default"

  datatype Key = Key(pname: string, pvalue: string)

  datatype Section = Section(title: string, keys: seq<Key>, subs: seq<Section>)

  // ---- Lines ----

  /** The first c in s from position i on; the length of s if there is none. */
  function Index(s: string, c: char, i: nat): (k: nat)
    requires i <= |s|
    ensures i <= k <= |s|
    ensures k < |s| ==> s[k] == c
    ensures forall j :: i <= j < k ==> s[j] != c
    decreases |s| - i
  {
    if i == |s| || s[i] == c then i else Index(s, c, i + 1)
  }

  datatype Line = OffEnd | Line(text: string, step: nat)

  /**
   `copy_line`: the text up to the newline and the bytes the cursor moves on. A
   line of LINE_LEN characters or more is cut; a text that ends without a
   newline is read past its end.
   */
  function LineAt(buf: string, i: nat): (l: Line)
    requires i <= |buf|
    ensures l.Line? ==> 1 <= l.step && i + l.step <= |buf|
  {
    var e := Index(buf, '\n', i);
    if e - i >= LINE_LEN then Line(buf[i..i + LINE_LEN - 1], LINE_LEN)
    else if e == |buf| then OffEnd
    else Line(buf[i..e], e - i + 1)
  }

  // ---- Parsing as a function of the text and the cursor ----

  /** How parsing the lines of a section ends; C does not define every case. */
  datatype Parsed = Undefined | Body(keys: seq<Key>, subs: seq<Section>, next: nat)

  /** The part of a line before its first c. */
  function Before(s: string, c: char): string {
    s[..Index(s, c, 0)]
  }

  function Behind(s: string, c: char): string
    requires c in s
  {
    s[Index(s, c, 0) + 1..]
  }

  predicate Short(s: string) {
    |s| < MAX_STRING_LEN
  }

  /** The loop of `parse_section` from cursor i on, with the lists built so far. */
  function ParseBody(buf: string, i: nat, fileLen: nat, keys: seq<Key>, subs: seq<Section>): (r: Parsed)
    requires i <= |buf|
    ensures r.Body? ==> i <= r.next <= |buf| && (i < fileLen ==> i < r.next)
    decreases |buf| - i
  {
    if i >= fileLen then Body(keys, subs, i)
    else
      var l := LineAt(buf, i);
      if l.OffEnd? then Undefined
      else if '}' in l.text then Body(keys, subs, i + l.step)
      else if '{' in l.text then
        if !Short(Before(l.text, '{')) then Undefined
        else
          var r := ParseBody(buf, i + l.step, fileLen, [], []);
          if r.Undefined? then Undefined
          else ParseBody(buf, r.next, fileLen, keys, [Section(Before(l.text, '{'), r.keys, r.subs)] + subs)
      else if '=' !in l.text || !Short(Before(l.text, '=')) || !Short(Behind(l.text, '=')) then Undefined
      else ParseBody(buf, i + l.step, fileLen, [Key(Before(l.text, '='), Behind(l.text, '='))] + keys, subs)
  }

  datatype One = Bad | One(section: Section, next: nat)

  /** `parse_section`: a first line without a brace opens a default section and is not consumed. */
  function ParseOne(buf: string, i: nat, fileLen: nat): (r: One)
    requires i <= |buf|
    ensures r.One? ==> i <= r.next <= |buf| && (i < fileLen ==> i < r.next)
  {
    var l := LineAt(buf, i);
    if l.OffEnd? then Bad
    else if '{' in l.text then
      var r := ParseBody(buf, i + l.step, fileLen, [], []);
      if r.Undefined? || !Short(Before(l.text, '{')) then Bad
      else One(Section(Before(l.text, '{'), r.keys, r.subs), r.next)
    else
      var r := ParseBody(buf, i, fileLen, [], []);
      if r.Undefined? then Bad else One(Section(TITLE_DEFAULT, r.keys, r.subs), r.next)
  }

  datatype File = Failed | File(sects: seq<Section>, next: nat)

  /** The loop of `cfg_new`. */
  function ParseFile(buf: string, i: nat, fileLen: nat, sects: seq<Section>): (r: File)
    requires i <= |buf|
    decreases |buf| - i
  {
    if i >= fileLen then File(sects, i)
    else
      var r := ParseOne(buf, i, fileLen);
      if r.Bad? then Failed else ParseFile(buf, r.next, fileLen, [r.section] + sects)
  }

  // ---- Configurations and their text ----

  /** A line of a configuration: a key, or a section with the lines inside it. */
  datatype Item = KeyLine(pname: string, pvalue: string) | Sub(title: string, items: seq<Item>)

  function Render(items: seq<Item>): string
    decreases items
  {
    if |items| == 0 then "" else RenderItem(items[0]) + Render(items[1..])
  }

  function RenderItem(item: Item): (t: string)
    ensures |t| >= 2
    decreases item
  {
    match item
    case KeyLine(pname, pvalue) => pname + "=" + pvalue + "\n"
    case Sub(title, items) => title + "{\n" + Render(items) + "}\n"
  }

  predicate Plain(s: string) {
    '{' !in s && '}' !in s && '\n' !in s && Short(s)
  }

  /** Every string and every line is within the limits, and names hold no '='. */
  predicate Fits(items: seq<Item>)
    decreases items
  {
    |items| == 0 || (FitsItem(items[0]) && Fits(items[1..]))
  }

  predicate FitsItem(item: Item)
    decreases item
  {
    match item
    case KeyLine(pname, pvalue) =>
      Plain(pname) && '=' !in pname && Plain(pvalue) && |pname| + 1 + |pvalue| < LINE_LEN
    case Sub(title, items) => Plain(title) && Fits(items)
  }

  function KeysOf(items: seq<Item>): seq<Key>
    decreases items
  {
    if |items| == 0 then []
    else (if items[0].KeyLine? then [Key(items[0].pname, items[0].pvalue)] else []) + KeysOf(items[1..])
  }

  function SubsOf(items: seq<Item>): seq<Section>
    decreases items
  {
    if |items| == 0 then []
    else (if items[0].Sub? then [TreeOf(items[0])] else []) + SubsOf(items[1..])
  }

  /** The tree of a section, with keys and sections in the order of the text. */
  function TreeOf(item: Item): Section
    requires item.Sub?
    decreases item
  {
    Section(item.title, KeysOf(item.items), SubsOf(item.items))
  }

  /** The tree with the key list and the section list of every section reversed. */
  function Mirror(s: Section): Section
    decreases s
  {
    Section(s.title, Reverse(s.keys), Reverse(MirrorAll(s.subs)))
  }

  function MirrorAll(l: seq<Section>): (r: seq<Section>)
    ensures |r| == |l|
    decreases l
  {
    if |l| == 0 then [] else [Mirror(l[0])] + MirrorAll(l[1..])
  }

  lemma {:induction false} MirrorAllReverse(l: seq<Section>)
    ensures MirrorAll(Reverse(l)) == Reverse(MirrorAll(l))
    decreases |l|
  {
    if |l| > 0 {
      MirrorAllReverse(l[1..]);
      MirrorAllAppend(Reverse(l[1..]), [l[0]]);
      assert MirrorAll(l)[1..] == MirrorAll(l[1..]);
    }
  }

  lemma {:induction false} MirrorAllAppend(a: seq<Section>, b: seq<Section>)
    ensures MirrorAll(a + b) == MirrorAll(a) + MirrorAll(b)
    decreases |a|
  {
    if |a| == 0 {
      assert a + b == b;
    } else {
      assert (a + b)[1..] == a[1..] + b;
      MirrorAllAppend(a[1..], b);
    }
  }

  /** Mirroring twice gives the tree back. */
  lemma {:induction false} MirrorTwice(s: Section)
    ensures Mirror(Mirror(s)) == s
    decreases s, 0
  {
    ReverseTwice(s.keys);
    MirrorAllTwice(s.subs);
    MirrorAllReverse(MirrorAll(s.subs));
    ReverseTwice(MirrorAll(MirrorAll(s.subs)));
  }

  lemma {:induction false} MirrorAllTwice(l: seq<Section>)
    ensures MirrorAll(MirrorAll(l)) == l
    decreases l, 0
  {
    if |l| > 0 {
      MirrorTwice(l[0]);
      MirrorAllTwice(l[1..]);
      assert MirrorAll(l)[1..] == MirrorAll(l[1..]);
    }
  }

  // ---- Parsing a rendered text ----

  /** The text t stands in buf at position i. */
  predicate Holds(buf: string, i: nat, t: string) {
    i + |t| <= |buf| && buf[i..i + |t|] == t
  }

  lemma HoldsSplit(buf: string, i: nat, a: string, b: string)
    requires Holds(buf, i, a + b)
    ensures Holds(buf, i, a) && Holds(buf, i + |a|, b)
  {
    assert buf[i..i + |a + b|][..|a|] == a;
    assert buf[i..i + |a + b|][|a|..] == b;
  }

  lemma LineIs(buf: string, i: nat, line: string)
    requires Holds(buf, i, line + "\n") && '\n' !in line && |line| < LINE_LEN
    ensures LineAt(buf, i) == Line(line, |line| + 1)
  {
    HoldsSplit(buf, i, line, "\n");
    assert buf[i + |line|] == buf[i + |line|..i + |line| + 1][0] == '\n';
    forall j | i <= j < i + |line| ensures buf[j] != '\n' {
      assert buf[j] == buf[i..i + |line|][j - i];
    }
  }

  lemma IndexIs(a: string, c: char, b: string)
    requires c !in a
    ensures Index(a + [c] + b, c, 0) == |a|
    ensures Before(a + [c] + b, c) == a && Behind(a + [c] + b, c) == b
  {
    var s := a + [c] + b;
    assert s[|a|] == c;
    forall j | 0 <= j < |a| ensures s[j] != c {
      assert s[j] == a[j];
    }
  }

  lemma KeyUnfold(buf: string, i: nat, fileLen: nat, l: Line, keys: seq<Key>, subs: seq<Section>)
    requires i < fileLen && i <= |buf| && LineAt(buf, i) == l && l.Line?
    requires '}' !in l.text && '{' !in l.text && '=' in l.text
    requires Short(Before(l.text, '=')) && Short(Behind(l.text, '='))
    ensures ParseBody(buf, i, fileLen, keys, subs)
            == ParseBody(buf, i + l.step, fileLen, [Key(Before(l.text, '='), Behind(l.text, '='))] + keys, subs)
  {
    hide LineAt, Index, Before, Behind, Short;
  }

  lemma OpenUnfold(buf: string, i: nat, fileLen: nat, l: Line, keys: seq<Key>, subs: seq<Section>)
    requires i < fileLen && i <= |buf| && LineAt(buf, i) == l && l.Line?
    requires '}' !in l.text && '{' in l.text && Short(Before(l.text, '{'))
    requires ParseBody(buf, i + l.step, fileLen, [], []).Body?
    ensures var r := ParseBody(buf, i + l.step, fileLen, [], []);
            ParseBody(buf, i, fileLen, keys, subs)
            == ParseBody(buf, r.next, fileLen, keys, [Section(Before(l.text, '{'), r.keys, r.subs)] + subs)
  {
    hide LineAt, Index, Before, Short;
  }

  lemma KeyStep(buf: string, i: nat, fileLen: nat, pname: string, pvalue: string, keys: seq<Key>, subs: seq<Section>)
    requires FitsItem(KeyLine(pname, pvalue)) && i < fileLen
    requires Holds(buf, i, RenderItem(KeyLine(pname, pvalue)))
    ensures ParseBody(buf, i, fileLen, keys, subs)
            == ParseBody(buf, i + |RenderItem(KeyLine(pname, pvalue))|, fileLen, [Key(pname, pvalue)] + keys, subs)
  {
    hide ParseBody, LineAt, Index, Before, Behind;
    var line := pname + "=" + pvalue;
    assert RenderItem(KeyLine(pname, pvalue)) == line + "\n";
    LineIs(buf, i, line);
    IndexIs(pname, '=', pvalue);
    assert pname + ['='] + pvalue == line && line[|pname|] == '=';
    KeyUnfold(buf, i, fileLen, Line(line, |line| + 1), keys, subs);
  }

  lemma TitleIs(title: string)
    requires Plain(title)
    ensures '}' !in title + "{" && '\n' !in title + "{" && '{' in title + "{" && Before(title + "{", '{') == title
  {
    IndexIs(title, '{', "");
    assert title + ['{'] + "" == title + "{";
    assert (title + "{")[|title|] == '{';
  }

  lemma TitleLineIs(buf: string, i: nat, title: string, rest: string)
    requires Plain(title) && Holds(buf, i, title + "{\n" + rest)
    ensures LineAt(buf, i) == Line(title + "{", |title| + 2)
    ensures '}' !in title + "{" && '{' in title + "{" && Before(title + "{", '{') == title
    ensures Holds(buf, i + |title| + 2, rest)
  {
    hide LineAt, Before, Index, Holds;
    var line := title + "{";
    TitleIs(title);
    assert title + "{\n" + rest == (line + "\n") + rest;
    HoldsSplit(buf, i, line + "\n", rest);
    LineIs(buf, i, line);
  }

  lemma CloseStep(buf: string, i: nat, fileLen: nat, keys: seq<Key>, subs: seq<Section>)
    requires i < fileLen && Holds(buf, i, "}\n")
    ensures ParseBody(buf, i, fileLen, keys, subs) == Body(keys, subs, i + 2)
  {
    assert "}" + "\n" == "}\n";
    LineIs(buf, i, "}");
    assert "}"[0] == '}';
  }

  lemma ReverseCons<T>(x: T, l: seq<T>, acc: seq<T>)
    ensures Reverse([x] + l) + acc == Reverse(l) + ([x] + acc)
  {
    assert ([x] + l)[1..] == l;
  }

  /** Parsing behind the lines of items, with each key and section put in front. */
  function After(buf: string, i: nat, fileLen: nat, items: seq<Item>, keys: seq<Key>, subs: seq<Section>): Parsed
    requires i + |Render(items)| <= |buf|
  {
    ParseBody(buf, i + |Render(items)|, fileLen,
              Reverse(KeysOf(items)) + keys, Reverse(MirrorAll(SubsOf(items))) + subs)
  }

  lemma AfterNone(buf: string, i: nat, fileLen: nat, keys: seq<Key>, subs: seq<Section>)
    requires i <= |buf|
    ensures After(buf, i, fileLen, [], keys, subs) == ParseBody(buf, i, fileLen, keys, subs)
  {
    hide ParseBody;
    var noKeys, noSubs := KeysOf([]), SubsOf([]);
    assert Reverse(noKeys) + keys == keys;
    assert Reverse(MirrorAll(noSubs)) + subs == subs;
  }

  lemma AfterCons(buf: string, i: nat, fileLen: nat, item: Item, rest: seq<Item>, keys: seq<Key>, subs: seq<Section>)
    requires i + |Render([item] + rest)| <= |buf|
    ensures |Render([item] + rest)| == |RenderItem(item)| + |Render(rest)|
    ensures After(buf, i, fileLen, [item] + rest, keys, subs)
            == match item
               case KeyLine(n, v) => After(buf, i + |RenderItem(item)|, fileLen, rest, [Key(n, v)] + keys, subs)
               case Sub(_, _) => After(buf, i + |RenderItem(item)|, fileLen, rest, keys, [Mirror(TreeOf(item))] + subs)
  {
    hide ParseBody, Render, RenderItem, TreeOf, Mirror, MirrorAll, KeysOf, SubsOf, Reverse;
    ItemsCons(item, rest);
    match item
    case KeyLine(n, v) =>
      ReverseCons(Key(n, v), KeysOf(rest), keys);
    case Sub(_, _) =>
      ReverseCons(Mirror(TreeOf(item)), MirrorAll(SubsOf(rest)), subs);
  }

  lemma ItemsCons(item: Item, rest: seq<Item>)
    ensures Render([item] + rest) == RenderItem(item) + Render(rest)
    ensures KeysOf([item] + rest)
            == (if item.KeyLine? then [Key(item.pname, item.pvalue)] + KeysOf(rest) else KeysOf(rest))
    ensures MirrorAll(SubsOf([item] + rest))
            == (if item.Sub? then [Mirror(TreeOf(item))] + MirrorAll(SubsOf(rest)) else MirrorAll(SubsOf(rest)))
    ensures item.KeyLine? ==> SubsOf([item] + rest) == SubsOf(rest)
  {
    hide RenderItem, TreeOf, Mirror, MirrorAll;
    var items := [item] + rest;
    assert items[0] == item && items[1..] == rest;
    if item.Sub? {
      assert KeysOf(items) == KeysOf(rest);
      assert SubsOf(items) == [TreeOf(item)] + SubsOf(rest);
      MirrorAllCons(TreeOf(item), SubsOf(rest));
    } else {
      assert SubsOf(items) == SubsOf(rest);
    }
  }

  lemma MirrorAllCons(s: Section, l: seq<Section>)
    ensures MirrorAll([s] + l) == [Mirror(s)] + MirrorAll(l)
  {
    hide Mirror;
    assert ([s] + l)[1..] == l;
  }

  /** Parsing the lines of a section puts each of its keys and sections in front, in turn. */
  lemma {:induction false} ParseItems(buf: string, i: nat, fileLen: nat, items: seq<Item>, keys: seq<Key>, subs: seq<Section>)
    requires Fits(items) && Holds(buf, i, Render(items)) && i + |Render(items)| <= fileLen <= |buf|
    ensures ParseBody(buf, i, fileLen, keys, subs) == After(buf, i, fileLen, items, keys, subs)
    decreases items, 1
  {
    hide ParseBody, FitsItem, RenderItem, TreeOf, Mirror, After;
    if |items| == 0 {
      AfterNone(buf, i, fileLen, keys, subs);
    } else {
      var item, rest := items[0], items[1..];
      var j := i + |RenderItem(item)|;
      assert items == [item] + rest;
      AfterCons(buf, i, fileLen, item, rest, keys, subs);
      HoldsSplit(buf, i, RenderItem(item), Render(rest));
      match item
      case KeyLine(pname, pvalue) =>
        KeyStep(buf, i, fileLen, pname, pvalue, keys, subs);
        ParseItems(buf, j, fileLen, rest, [Key(pname, pvalue)] + keys, subs);
      case Sub(_, _) =>
        SubStep(buf, i, fileLen, item, keys, subs);
        ParseItems(buf, j, fileLen, rest, keys, [Mirror(TreeOf(item))] + subs);
    }
  }

  /** The lines inside a section and its closing brace. */
  lemma {:induction false} InsideStep(buf: string, i: nat, fileLen: nat, items: seq<Item>)
    requires Fits(items) && Holds(buf, i, Render(items) + "}\n")
    requires i + |Render(items)| + 2 <= fileLen <= |buf|
    ensures ParseBody(buf, i, fileLen, [], [])
            == Body(Reverse(KeysOf(items)), Reverse(MirrorAll(SubsOf(items))), i + |Render(items)| + 2)
    decreases items, 2
  {
    hide ParseBody, Fits, Render, KeysOf, SubsOf, Reverse, MirrorAll;
    HoldsSplit(buf, i, Render(items), "}\n");
    ParseItems(buf, i, fileLen, items, [], []);
    var keys, subs := Reverse(KeysOf(items)), Reverse(MirrorAll(SubsOf(items)));
    assert keys + [] == keys && subs + [] == subs;
    CloseStep(buf, i + |Render(items)|, fileLen, keys, subs);
  }

  lemma {:induction false} SubStep(buf: string, i: nat, fileLen: nat, item: Item, keys: seq<Key>, subs: seq<Section>)
    requires item.Sub? && FitsItem(item) && Holds(buf, i, RenderItem(item))
    requires i + |RenderItem(item)| <= fileLen <= |buf|
    ensures ParseBody(buf, i, fileLen, keys, subs)
            == ParseBody(buf, i + |RenderItem(item)|, fileLen, keys, [Mirror(TreeOf(item))] + subs)
    decreases item
  {
    hide ParseBody, LineAt, Index, Before;
    var rest := Render(item.items) + "}\n";
    assert RenderItem(item) == item.title + "{\n" + rest;
    TitleLineIs(buf, i, item.title, rest);
    InsideStep(buf, i + |item.title| + 2, fileLen, item.items);
    OpenUnfold(buf, i, fileLen, Line(item.title + "{", |item.title| + 2), keys, subs);
  }

  /** A key line is read back as it was written exactly when its name holds no '='. */
  lemma KeyTextIff(pname: string, pvalue: string)
    ensures var text := pname + "=" + pvalue;
            '=' in text
            && (Before(text, '=') == pname && Behind(text, '=') == pvalue <==> '=' !in pname)
  {
    var text := pname + "=" + pvalue;
    assert text[|pname|] == '=';
    if '=' in pname {
      var k :| 0 <= k < |pname| && pname[k] == '=';
      assert text[k] == '=';
    } else {
      IndexIs(pname, '=', pvalue);
      assert pname + ['='] + pvalue == text;
    }
  }

  // ---- Lines out of the ordinary ----

  /**
   A line is read as it stands exactly when it is shorter than the line buffer.
   A longer one gives its first LINE_LEN - 1 characters, and the cursor skips one
   character more: the rest is taken for another line, without it.
   */
  lemma LineWholeIff(buf: string, i: nat, line: string)
    requires Holds(buf, i, line + "\n") && '\n' !in line
    ensures LineAt(buf, i) == Line(line, |line| + 1) <==> |line| < 168
    ensures |line| >= 168 ==> LineAt(buf, i) == Line(line[..167], 168)
                                   && Holds(buf, i + 168, line[168..] + "\n")
  {
    if |line| < LINE_LEN {
      LineIs(buf, i, line);
    } else {
      HoldsSplit(buf, i, line, "\n");
      forall j | i <= j < i + |line| ensures buf[j] != '\n' {
        assert buf[j] == buf[i..i + |line|][j - i];
      }
      assert buf[i..i + LINE_LEN - 1] == buf[i..i + |line|][..LINE_LEN - 1];
      assert line + "\n" == line[..LINE_LEN] + (line[LINE_LEN..] + "\n");
      HoldsSplit(buf, i, line[..LINE_LEN], line[LINE_LEN..] + "\n");
    }
  }

  /** A line with a closing brace anywhere ends its section, whatever else it holds. */
  lemma CloseAnywhere(buf: string, i: nat, fileLen: nat, line: string, keys: seq<Key>, subs: seq<Section>)
    requires i < fileLen && Holds(buf, i, line + "\n") && '\n' !in line && |line| < LINE_LEN && '}' in line
    ensures ParseBody(buf, i, fileLen, keys, subs) == Body(keys, subs, i + |line| + 1)
  {
    hide LineAt, Holds;
    LineIs(buf, i, line);
  }

  /** What follows the opening brace on its line is ignored. */
  lemma JunkIgnored(buf: string, i: nat, fileLen: nat, title: string, junk: string, keys: seq<Key>, subs: seq<Section>)
    requires i < fileLen && Plain(title) && '}' !in junk && '\n' !in junk && |title| + 1 + |junk| < LINE_LEN
    requires Holds(buf, i, title + "{" + junk + "\n")
    requires ParseBody(buf, i + |title| + |junk| + 2, fileLen, [], []).Body?
    ensures var r := ParseBody(buf, i + |title| + |junk| + 2, fileLen, [], []);
            ParseBody(buf, i, fileLen, keys, subs)
            == ParseBody(buf, r.next, fileLen, keys, [Section(title, r.keys, r.subs)] + subs)
  {
    hide LineAt, Holds, Index, Before, ParseBody;
    var line := title + "{" + junk;
    LineIs(buf, i, line);
    IndexIs(title, '{', junk);
    assert title + ['{'] + junk == line && line[|title|] == '{';
    OpenUnfold(buf, i, fileLen, Line(line, |line| + 1), keys, subs);
  }

  /**
   A line without braces is a key exactly when it holds an '=' and both sides of
   the first one fit a str object; the value may hold more of them.
   */
  lemma KeyLineOutcome(buf: string, i: nat, fileLen: nat, pname: string, pvalue: string, keys: seq<Key>, subs: seq<Section>)
    requires i < fileLen && '=' !in pname && |pname| + 1 + |pvalue| < 168
    requires forall c :: c == '{' || c == '}' || c == '\n' ==> c !in pname && c !in pvalue
    requires Holds(buf, i, pname + "=" + pvalue + "\n")
    ensures ParseBody(buf, i, fileLen, keys, subs)
            == if |pname| < 128 && |pvalue| < 128
               then ParseBody(buf, i + |pname| + |pvalue| + 2, fileLen, [Key(pname, pvalue)] + keys, subs)
               else Undefined
  {
    hide LineAt, Holds, Index, Before, Behind;
    var line := pname + "=" + pvalue;
    assert '{' !in line && '}' !in line && '\n' !in line;
    LineIs(buf, i, line);
    IndexIs(pname, '=', pvalue);
    assert pname + ['='] + pvalue == line && line[|pname|] == '=';
  }

  /** A line without braces and '=', and a text that ends inside a line, have no defined result. */
  lemma UndefinedLines(buf: string, i: nat, fileLen: nat, line: string, keys: seq<Key>, subs: seq<Section>)
    requires i < fileLen && '\n' !in line && |line| < LINE_LEN
    ensures Holds(buf, i, line + "\n") && '{' !in line && '}' !in line && '=' !in line
            ==> ParseBody(buf, i, fileLen, keys, subs) == Undefined
    ensures Holds(buf, i, line) && i + |line| == |buf| ==> ParseBody(buf, i, fileLen, keys, subs) == Undefined
  {
    hide Before, Behind;
    if Holds(buf, i, line + "\n") {
      LineIs(buf, i, line);
    }
    if Holds(buf, i, line) && i + |line| == |buf| {
      forall j | i <= j < |buf| ensures buf[j] != '\n' {
        assert buf[j] == line[j - i];
      }
      assert LineAt(buf, i) == OffEnd;
    }
  }

  /** A title too long for a str object has no defined result, for sections inside a section and at the top alike. */
  lemma LongTitle(buf: string, i: nat, fileLen: nat, title: string, keys: seq<Key>, subs: seq<Section>)
    requires i < fileLen && |title| + 1 < 168 && Holds(buf, i, title + "{\n")
    requires forall c :: c == '{' || c == '}' || c == '\n' ==> c !in title
    ensures |title| >= 128 ==> ParseBody(buf, i, fileLen, keys, subs) == Undefined
    ensures |title| >= 128 ==> ParseOne(buf, i, fileLen) == Bad
  {
    hide LineAt, Holds, Index, Before;
    var line := title + "{";
    assert title + "{\n" == line + "\n";
    assert '}' !in line && '\n' !in line && line[|title|] == '{';
    LineIs(buf, i, line);
    IndexIs(title, '{', "");
    assert title + ['{'] + "" == line;
  }

  /** At the end of the file every open section is closed. */
  lemma EndCloses(buf: string, i: nat, items: seq<Item>)
    requires Fits(items) && Holds(buf, i, Render(items)) && i + |Render(items)| == |buf|
    ensures ParseBody(buf, i, |buf|, [], []) == Body(Reverse(KeysOf(items)), Reverse(MirrorAll(SubsOf(items))), |buf|)
  {
    hide LineAt, Index, TreeOf, MirrorAll, Reverse, KeysOf, SubsOf, Render, Fits, Holds;
    ParseItems(buf, i, |buf|, items, [], []);
    var keys, subs := Reverse(KeysOf(items)), Reverse(MirrorAll(SubsOf(items)));
    assert keys + [] == keys && subs + [] == subs;
    assert ParseBody(buf, |buf|, |buf|, keys, subs) == Body(keys, subs, |buf|);
  }

  // ---- A whole file ----

  /**
   The sections a text stands for, in the order of the text: its sections up to
   the first line outside any section, and then one section for all that follows.
   */
  function SectionsOf(items: seq<Item>): seq<Section> {
    if |items| == 0 then []
    else if items[0].Sub? then [TreeOf(items[0])] + SectionsOf(items[1..])
    else [Section(TITLE_DEFAULT, KeysOf(items), SubsOf(items))]
  }

  lemma {:induction false} ParseSections(buf: string, i: nat, items: seq<Item>, sects: seq<Section>)
    requires Fits(items) && Holds(buf, i, Render(items)) && i + |Render(items)| == |buf|
    ensures ParseFile(buf, i, |buf|, sects) == File(Reverse(MirrorAll(SectionsOf(items))) + sects, |buf|)
    decreases |items|
  {
    hide ParseBody, ParseOne, FitsItem, RenderItem, TreeOf, Mirror;
    if |items| == 0 {
      assert Reverse(MirrorAll(SectionsOf(items))) + sects == sects;
    } else {
      var item, rest := items[0], items[1..];
      HoldsSplit(buf, i, RenderItem(item), Render(rest));
      match item
      case Sub(_, _) =>
        var tree := Mirror(TreeOf(item));
        SectionStep(buf, i, item);
        ParseSections(buf, i + |RenderItem(item)|, rest, [tree] + sects);
        assert MirrorAll(SectionsOf(items)) == [tree] + MirrorAll(SectionsOf(rest));
        ReverseCons(tree, MirrorAll(SectionsOf(rest)), sects);
      case KeyLine(_, _) =>
        DefaultStep(buf, i, items);
        var sect := Section(TITLE_DEFAULT, KeysOf(items), SubsOf(items));
        assert MirrorAll(SectionsOf(items)) == [Mirror(sect)];
        assert Reverse([Mirror(sect)]) == [Mirror(sect)];
        assert ParseFile(buf, |buf|, |buf|, [Mirror(sect)] + sects) == File([Mirror(sect)] + sects, |buf|);
    }
  }

  lemma SectionStep(buf: string, i: nat, item: Item)
    requires item.Sub? && FitsItem(item) && Holds(buf, i, RenderItem(item))
    ensures ParseOne(buf, i, |buf|) == One(Mirror(TreeOf(item)), i + |RenderItem(item)|)
  {
    hide ParseBody, LineAt, Index, Before;
    var rest := Render(item.items) + "}\n";
    assert RenderItem(item) == item.title + "{\n" + rest;
    TitleLineIs(buf, i, item.title, rest);
    InsideStep(buf, i + |item.title| + 2, |buf|, item.items);
  }

  /** A line outside any section opens a section that takes all the rest of the file. */
  lemma DefaultStep(buf: string, i: nat, items: seq<Item>)
    requires |items| > 0 && items[0].KeyLine?
    requires Fits(items) && Holds(buf, i, Render(items)) && i + |Render(items)| == |buf|
    ensures ParseOne(buf, i, |buf|)
            == One(Mirror(Section("default", KeysOf(items), SubsOf(items))), |buf|)
  {
    hide LineAt, Index, TreeOf, MirrorAll, Reverse, KeysOf, SubsOf;
    var line := items[0].pname + "=" + items[0].pvalue;
    HoldsSplit(buf, i, RenderItem(items[0]), Render(items[1..]));
    assert RenderItem(items[0]) == line + "\n";
    LineIs(buf, i, line);
    ParseItems(buf, i, |buf|, items, [], []);
    var keys, subs := Reverse(KeysOf(items)), Reverse(MirrorAll(SubsOf(items)));
    assert keys + [] == keys && subs + [] == subs;
    assert ParseBody(buf, |buf|, |buf|, keys, subs) == Body(keys, subs, |buf|);
  }

  /**
   For every configuration within the limits, parsing its text reads all of it and
   gives its sections, with every key list and every section list reversed.
   */
  lemma ParseRender(items: seq<Item>)
    requires Fits(items)
    ensures var text := Render(items);
            ParseFile(text, 0, |text|, []) == File(Reverse(MirrorAll(SectionsOf(items))), |text|)
  {
    var text := Render(items);
    assert text[0..0 + |text|] == text;
    ParseSections(text, 0, items, []);
    var sects := Reverse(MirrorAll(SectionsOf(items)));
    assert sects + [] == sects;
  }

  // ---- Writing a parsed configuration back ----

  function ItemOf(s: Section): Item
    decreases s, 1
  {
    Sub(s.title, KeyLines(s.keys) + ItemsOf(s.subs))
  }

  function KeyLines(keys: seq<Key>): seq<Item> {
    if |keys| == 0 then [] else [KeyLine(keys[0].pname, keys[0].pvalue)] + KeyLines(keys[1..])
  }

  /** The text lines of a list of sections. */
  function ItemsOf(l: seq<Section>): seq<Item>
    decreases l, 0
  {
    if |l| == 0 then [] else [ItemOf(l[0])] + ItemsOf(l[1..])
  }

  /** ItemOf is an inverse of TreeOf. */
  lemma {:induction false} TreeOfItem(s: Section)
    ensures TreeOf(ItemOf(s)) == s
    decreases s, 2
  {
    KeyLinesBefore(s.keys, ItemsOf(s.subs));
    ItemsOfTrees(s.subs);
    assert s.keys + [] == s.keys;
  }

  lemma {:induction false} KeyLinesBefore(keys: seq<Key>, items: seq<Item>)
    ensures KeysOf(KeyLines(keys) + items) == keys + KeysOf(items)
    ensures SubsOf(KeyLines(keys) + items) == SubsOf(items)
    decreases |keys|
  {
    hide KeysOf, SubsOf, Render, MirrorAll;
    if |keys| == 0 {
      assert KeyLines(keys) + items == items;
      assert keys + KeysOf(items) == KeysOf(items);
    } else {
      var line, tail := KeyLine(keys[0].pname, keys[0].pvalue), keys[1..];
      KeyLinesBefore(tail, items);
      ConsAppend(line, KeyLines(tail), items);
      ItemsCons(line, KeyLines(tail) + items);
      assert keys == [keys[0]] + tail;
      ConsAppend(keys[0], tail, KeysOf(items));
    }
  }

  lemma ConsAppend<T>(x: T, a: seq<T>, b: seq<T>)
    ensures ([x] + a) + b == [x] + (a + b)
  {
  }

  lemma {:induction false} ItemsOfTrees(l: seq<Section>)
    ensures KeysOf(ItemsOf(l)) == [] && SubsOf(ItemsOf(l)) == l && SectionsOf(ItemsOf(l)) == l
    decreases l, 1
  {
    if |l| > 0 {
      TreeOfItem(l[0]);
      ItemsOfTrees(l[1..]);
      assert ItemsOf(l)[1..] == ItemsOf(l[1..]);
    }
  }

  lemma {:induction false} FitsAppend(a: seq<Item>, b: seq<Item>)
    ensures Fits(a + b) <==> Fits(a) && Fits(b)
    decreases |a|
  {
    if |a| == 0 {
      assert a + b == b;
    } else {
      assert (a + b)[1..] == a[1..] + b;
      FitsAppend(a[1..], b);
    }
  }

  lemma {:induction false} KeyLinesReverse(keys: seq<Key>)
    ensures Fits(KeyLines(Reverse(keys))) <==> Fits(KeyLines(keys))
    decreases |keys|
  {
    if |keys| > 0 {
      KeyLinesReverse(keys[1..]);
      KeyLinesAppend(Reverse(keys[1..]), keys[..1]);
      FitsAppend(KeyLines(Reverse(keys[1..])), KeyLines(keys[..1]));
      FitsAppend(KeyLines(keys[..1]), KeyLines(keys[1..]));
      KeyLinesAppend(keys[..1], keys[1..]);
      assert keys[..1] + keys[1..] == keys && [keys[0]] == keys[..1];
    }
  }

  lemma {:induction false} KeyLinesAppend(a: seq<Key>, b: seq<Key>)
    ensures KeyLines(a + b) == KeyLines(a) + KeyLines(b)
    decreases |a|
  {
    if |a| == 0 {
      assert a + b == b;
    } else {
      assert (a + b)[1..] == a[1..] + b;
      KeyLinesAppend(a[1..], b);
    }
  }

  lemma {:induction false} ItemsOfAppend(a: seq<Section>, b: seq<Section>)
    ensures ItemsOf(a + b) == ItemsOf(a) + ItemsOf(b)
    decreases |a|
  {
    if |a| == 0 {
      assert a + b == b;
    } else {
      assert (a + b)[1..] == a[1..] + b;
      ItemsOfAppend(a[1..], b);
    }
  }

  /** The parsed form of a configuration within the limits is within the limits. */
  lemma {:induction false} MirrorFits(l: seq<Section>)
    requires Fits(ItemsOf(l))
    ensures Fits(ItemsOf(Reverse(MirrorAll(l))))
    decreases l
  {
    if |l| > 0 {
      var s := l[0];
      assert ItemsOf(l)[0] == ItemOf(s) && ItemsOf(l)[1..] == ItemsOf(l[1..]);
      FitsAppend(KeyLines(s.keys), ItemsOf(s.subs));
      KeyLinesReverse(s.keys);
      MirrorFits(s.subs);
      FitsAppend(KeyLines(Reverse(s.keys)), ItemsOf(Reverse(MirrorAll(s.subs))));
      assert FitsItem(ItemOf(Mirror(s)));
      MirrorFits(l[1..]);
      var done := Reverse(MirrorAll(l[1..]));
      assert MirrorAll(l)[1..] == MirrorAll(l[1..]) && MirrorAll(l)[0] == Mirror(s);
      assert ItemsOf([Mirror(s)]) == [ItemOf(Mirror(s))];
      ItemsOfAppend(done, [Mirror(s)]);
      FitsAppend(ItemsOf(done), ItemsOf([Mirror(s)]));
    }
  }

  /** Parsing a written configuration, writing what was parsed and parsing that gives it back. */
  lemma WriteParseTwice(l: seq<Section>)
    requires Fits(ItemsOf(l))
    ensures var text := Render(ItemsOf(l));
            var once := ParseFile(text, 0, |text|, []);
            once.File? && once.sects == Reverse(MirrorAll(l)) &&
            var again := Render(ItemsOf(once.sects));
            ParseFile(again, 0, |again|, []) == File(l, |again|)
  {
    hide ParseFile, Render, Fits, ItemsOf, SectionsOf, Reverse, MirrorAll;
    var back := Reverse(MirrorAll(l));
    ParseRender(ItemsOf(l));
    ItemsOfTrees(l);
    MirrorFits(l);
    ParseRender(ItemsOf(back));
    ItemsOfTrees(back);
    MirrorAllReverse(MirrorAll(l));
    MirrorAllTwice(l);
    ReverseTwice(MirrorAll(MirrorAll(l)));
  }

  // ---- The parser and its line buffer ----

  /** The first line of a section, or of anything else, as `parse_section` tells them apart. */
  predicate Opens(buf: string, i: nat)
    requires i <= |buf|
  {
    var l := LineAt(buf, i);
    l.Line? && '{' in l.text
  }

  /** The characters t and a NUL stand in s from position k on. */
  predicate CStr(s: string, k: nat, t: string) {
    k + |t| < |s| && s[k..k + |t|] == t && s[k + |t|] == '\0' && '\0' !in t
  }

  class Parser {
    /** The line all calls share. */
    const line: array<char>

    constructor ()
      ensures line.Length == LINE_LEN && fresh(line)
    {
      line := new char[LINE_LEN](_ => '\0');
    }

    /** `copy_line`; not ok when the text ends inside the line. */
    method CopyLine(buf: string, offset: nat) returns (ok: bool, n: nat)
      requires offset <= |buf| && '\0' !in buf && line.Length == LINE_LEN
      modifies line
      ensures ok <==> LineAt(buf, offset).Line?
      ensures ok ==> n == LineAt(buf, offset).step && CStr(line[..], 0, LineAt(buf, offset).text)
    {
      hide Index;
      var i, j := offset, 0;
      while i < |buf| && buf[i] != '\n' && j < LINE_LEN
        invariant i == offset + j <= |buf| && j <= LINE_LEN
        invariant line[..j] == buf[offset..i]
        invariant forall k :: offset <= k < i ==> buf[k] != '\n'
        decreases |buf| - i
      {
        line[j] := buf[i];
        assert line[..j + 1] == line[..j] + [buf[i]];
        j, i := j + 1, i + 1;
      }
      ghost var was := line[..];
      if j == LINE_LEN {
        line[j - 1] := '\0';
        assert line[..j - 1] == was[..j][..j - 1];
        assert buf[offset..i][..j - 1] == buf[offset..offset + LINE_LEN - 1];
        return true, j;
      }
      if i == |buf| {
        return false, 0;
      }
      line[j] := '\0';
      assert line[..j] == was[..j] == buf[offset..i];
      return true, j + 1;
    }

    /** `strchr` on the line: the first place of c, or -1. */
    method StrChr(c: char, ghost t: string) returns (k: int)
      requires CStr(line[..], 0, t) && c != '\0'
      ensures k >= 0 <==> c in t
      ensures k >= 0 ==> k == Index(t, c, 0) < |t|
    {
      hide Index;
      k := 0;
      while line[k] != '\0' && line[k] != c
        invariant 0 <= k <= |t|
        invariant forall j :: 0 <= j < k ==> t[j] != c
        decreases |t| - k
      {
        assert t[k] == line[..][0..|t|][k];
        k := k + 1;
      }
      if k < |t| {
        assert t[k] == line[..][0..|t|][k];
        assert t[k] != '\0';
      }
      if line[k] == '\0' {
        return -1;
      }
    }

    /** `str_snew` from position k of the line; not ok when a str object is too small. */
    method StrNew(k: nat, ghost t: string) returns (ok: bool, s: string)
      requires CStr(line[..], k, t)
      ensures ok <==> Short(t)
      ensures ok ==> s == t
    {
      var i := k;
      s := "";
      while line[i] != '\0'
        invariant k <= i <= k + |t|
        invariant s == t[..i - k]
        decreases k + |t| - i
      {
        assert t[i - k] == line[..][k..k + |t|][i - k];
        s := s + [line[i]];
        i := i + 1;
      }
      return |s| < MAX_STRING_LEN, s;
    }

    /** Cutting the line at its first c, and what stands before and behind the cut. */
    method Cut(k: nat, c: char, ghost t: string)
      requires CStr(line[..], 0, t) && c in t && k == Index(t, c, 0)
      modifies line
      ensures CStr(line[..], 0, Before(t, c)) && CStr(line[..], k + 1, Behind(t, c))
    {
      hide Index;
      ghost var was := line[..];
      line[k] := '\0';
      assert line[..k] == was[..k] && line[k + 1..] == was[k + 1..];
      assert line[..][0..k] == was[0..|t|][..k];
      assert line[..][k + 1..|t|] == was[0..|t|][k + 1..];
    }

    /** `parse_section`: the cursor enters as start and leaves in the result. */
    method ParseSection(buf: string, start: nat, fileLen: nat) returns (r: One)
      requires start <= |buf| && '\0' !in buf && line.Length == LINE_LEN
      modifies line
      ensures r == ParseOne(buf, start, fileLen)
      decreases |buf| - start, if Opens(buf, start) then 0 else 1
    {
      hide LineAt, Index, Before, Behind, Short, CStr;
      var ok, n := CopyLine(buf, start);
      if !ok {
        return Bad;
      }
      ghost var first := LineAt(buf, start).text;
      var i := start;
      var title := TITLE_DEFAULT;
      var c := StrChr('{', first);
      if c >= 0 {
        Cut(c, '{', first);
        ok, title := StrNew(0, Before(first, '{'));
        if !ok {
          return Bad;
        }
        i := i + n;
      }
      var keys, subs, next := [], [], false;
      ghost var from := i;
      while !next && i < fileLen
        invariant from <= i <= |buf|
        invariant ParseBody(buf, from, fileLen, [], [])
                  == if next then Body(keys, subs, i) else ParseBody(buf, i, fileLen, keys, subs)
        decreases |buf| - i, !next
      {
        ok, n := CopyLine(buf, i);
        if !ok {
          return Bad;
        }
        ghost var text := LineAt(buf, i).text;
        var close := StrChr('}', text);
        var open := StrChr('{', text);
        if close >= 0 {
          next, i := true, i + n;
        } else if open >= 0 {
          var sub := ParseSection(buf, i, fileLen);
          if sub.Bad? {
            return Bad;
          }
          subs, i := [sub.section] + subs, sub.next;
        } else {
          var eq := StrChr('=', text);
          if eq < 0 {
            return Bad;
          }
          Cut(eq, '=', text);
          var ok1, pname := StrNew(0, Before(text, '='));
          var ok2, pvalue := StrNew(eq + 1, Behind(text, '='));
          if !ok1 || !ok2 {
            return Bad;
          }
          keys, i := [Key(pname, pvalue)] + keys, i + n;
        }
      }
      return One(Section(title, keys, subs), i);
    }

    /** `cfg_new`: the sections of a file, the last one first. */
    method CfgNew(buf: string, fileLen: nat) returns (r: File)
      requires '\0' !in buf && line.Length == LINE_LEN
      modifies line
      ensures r == ParseFile(buf, 0, fileLen, [])
    {
      hide ParseOne;
      var i, sects := 0, [];
      while i < fileLen
        invariant i <= |buf|
        invariant ParseFile(buf, 0, fileLen, []) == ParseFile(buf, i, fileLen, sects)
        decreases |buf| - i
      {
        var sect := ParseSection(buf, i, fileLen);
        if sect.Bad? {
          return Failed;
        }
        sects, i := [sect.section] + sects, sect.next;
      }
      return File(sects, i);
    }
  }
}
