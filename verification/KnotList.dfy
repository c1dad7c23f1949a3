/** The values of a knot's frontmatter (knot/canon.go): bare tokens, quoted
    strings, and flow lists of both. */
module KnotList {
  import opened Wrappers
  import opened Strings
  import opened Utf8
  import opened KnotText
  import KnotLayout

  /** The bytes a bare token may not hold. */
  const NOT_BARE := " \t[]{},#&*!|>'%@`"

  predicate IsToken(s: string) {
    && s != "" && s[0] != '"'
    && forall c :: c in s ==> c !in NOT_BARE
  }

  /** readScalar. */
  function ReadScalar(value: string): Option<string> {
    if value != "" && value[0] == '"' then Unmarshal(value)
    else if IsToken(value) then Some(value)
    else None
  }

  lemma TokenReads(s: string)
    requires IsToken(s)
    ensures ReadScalar(s) == Some(s)
  {
  }

  lemma QuoteReads(s: string)
    requires Valid(s)
    ensures ReadScalar(Quote(s)) == Some(s)
  {
    hide Unmarshal, QuoteInner;
    Unquotes(s);
  }

  // Writing a list.

  /** An entry as a list holds it: a local ID bare, and anything else quoted. */
  function ItemText(item: string): string {
    if KnotLayout.IsLocalID(item) then item else Quote(item)
  }

  function Joined(items: seq<string>): string {
    if items == [] then ""
    else if |items| == 1 then ItemText(items[0])
    else ItemText(items[0]) + ", " + Joined(items[1..])
  }

  function SetOf(list: seq<string>): set<string> {
    set item | item in list
  }

  /** renderList: sorted, and each entry once. */
  function RenderList(list: seq<string>): string {
    "[" + Joined(Sorted(SetOf(list))) + "]"
  }

  // Reading one.

  /** An entry and what is left after it. */
  function ItemAt(inner: string): (r: Option<(string, string)>)
    requires inner != ""
    ensures r.Some? ==> |r.value.1| <= |inner|
  {
    if inner[0] == '"' then
      var end := 1 + StringEnd(inner[1..]);
      if end >= |inner| then None
      else match Unmarshal(inner[..end + 1])
        case None => None
        case Some(item) => Some((item, inner[end + 1..]))
    else
      var cut := IndexOf(inner, ',');
      var item := Trim(inner[..cut]);
      if item == "" then None else Some((item, inner[cut..]))
  }

  /** The entries from here on, after those already read. */
  function ReadItems(inner: string, list: seq<string>): Option<seq<string>>
    decreases |inner|
  {
    if inner == "" then Some(list)
    else match ItemAt(inner)
      case None => None
      case Some((item, after)) =>
        var rest := Trim(after);
        if rest == "" then Some(list + [item])
        else if rest[0] != ',' then None
        else
          var more := Trim(rest[1..]);
          if more == "" then None else ReadItems(more, list + [item])
  }

  function ReadList(value: string): Option<seq<string>> {
    if |value| < 2 || value[0] != '[' || value[|value| - 1] != ']' then None
    else ReadItems(value[1..|value| - 1], [])
  }

  /** readList as it consumes its input. */
  method ReadFlowList(value: string) returns (r: Option<seq<string>>)
    ensures r == ReadList(value)
  {
    hide Trim, Unmarshal, StringEnd;
    if |value| < 2 || value[0] != '[' || value[|value| - 1] != ']' { return None; }
    var inner := value[1..|value| - 1];
    ghost var start := inner;
    var list: seq<string> := [];
    while |inner| > 0
      invariant ReadItems(inner, list) == ReadItems(start, [])
      decreases |inner|
    {
      var item: string;
      if inner[0] == '"' {
        var end := StringClose(inner);
        if end >= |inner| { return None; }
        var said := Unmarshal(inner[..end + 1]);
        if said.None? { return None; }
        item := said.value;
        inner := inner[end + 1..];
      } else {
        var cut := IndexOf(inner, ',');
        item := Trim(inner[..cut]);
        inner := inner[cut..];
        if item == "" { return None; }
      }
      list := list + [item];
      inner := Trim(inner);
      if inner == "" { break; }
      if inner[0] != ',' { return None; }
      inner := Trim(inner[1..]);
      if inner == "" { return None; }
    }
    r := Some(list);
  }

  /** The place of a string's closing quote, past the end when it has none. */
  method StringClose(inner: string) returns (end: nat)
    requires inner != "" && inner[0] == '"'
    ensures end == 1 + StringEnd(inner[1..])
  {
    end := 1;
    while end < |inner| && inner[end] != '"'
      invariant end >= 1
      invariant if end <= |inner| then end + StringEnd(inner[end..]) == 1 + StringEnd(inner[1..])
                else end == 1 + StringEnd(inner[1..])
      decreases |inner| - end
    {
      if inner[end] == '\\' { end := end + 1; }
      end := end + 1;
    }
  }

  // A written list reads back.

  lemma LocalIdIsToken(item: string)
    requires KnotLayout.IsLocalID(item)
    ensures IsToken(item) && IsInked(item) && ',' !in item
    ensures forall i :: 0 <= i < |item| ==> IsInk(item[i])
  {
    var k: KnotLayout.Kind :| KnotLayout.IsIdUnder(item, k.Prefix());
    var p := k.Prefix();
    forall i | 0 <= i < |item| ensures 'a' <= item[i] <= 'z' || '0' <= item[i] <= '9' || item[i] == '-' {
      if i < |p| {
        assert item[i] == p[i];
      } else if i > |p| {
        assert item[|p| + 1..][i - |p| - 1] == item[i];
        assert item[i] in item[|p| + 1..];
      }
    }
  }

  lemma QuoteIsInked(s: string)
    ensures IsInked(Quote(s))
  {
  }

  lemma ItemIsInked(item: string)
    ensures IsInked(ItemText(item))
  {
    hide KnotLayout.IsLocalID, Quote, IsInked;
    if KnotLayout.IsLocalID(item) { LocalIdIsToken(item); } else { QuoteIsInked(item); }
  }

  lemma {:induction false} JoinedIsInked(items: seq<string>)
    requires items != []
    ensures IsInked(Joined(items))
  {
    hide ItemText;
    ItemIsInked(items[0]);
    if |items| > 1 { JoinedIsInked(items[1..]); }
  }

  /** An entry as written is read back, up to the comma or the end after it. */
  lemma ItemReads(item: string, tail: string)
    requires Valid(item) && (tail == "" || tail[0] == ',')
    ensures ItemText(item) + tail != "" && ItemAt(ItemText(item) + tail) == Some((item, tail))
  {
    hide KnotLayout.IsLocalID, QuoteInner, StringEnd, Unmarshal, Trim;
    if KnotLayout.IsLocalID(item) {
      LocalIdIsToken(item);
      TrimKeeps(item);
      BareCut(item, tail);
      assert (item + tail)[..|item|] == item && (item + tail)[|item|..] == tail;
    } else {
      var q := Quote(item);
      QuoteEnds(item, tail);
      Unquotes(item);
      assert (q + tail)[1..] == QuoteInner(item) + "\"" + tail;
      assert (q + tail)[..|q|] == q && (q + tail)[|q|..] == tail;
    }
  }

  lemma {:induction false} BareCut(item: string, tail: string)
    requires ',' !in item && (tail == "" || tail[0] == ',')
    ensures IndexOf(item + tail, ',') == |item|
  {
    if item == "" {
      assert item + tail == tail;
    } else {
      BareCut(item[1..], tail);
      assert (item + tail)[1..] == item[1..] + tail;
    }
  }

  lemma {:induction false} ItemsRead(items: seq<string>, list: seq<string>)
    requires forall i :: 0 <= i < |items| ==> Valid(items[i])
    ensures ReadItems(Joined(items), list) == Some(list + items)
    decreases |items|
  {
    hide ItemText, ItemAt, Trim, Valid, IsInked;
    if items == [] {
      assert list + items == list;
    } else if |items| == 1 {
      ItemReads(items[0], "");
      assert ItemText(items[0]) + "" == ItemText(items[0]);
      NothingToTrim();
      assert list + items == list + [items[0]];
    } else {
      var rest := Joined(items[1..]);
      var tail := ", " + rest;
      ItemReads(items[0], tail);
      assert Joined(items) == ItemText(items[0]) + tail;
      JoinedIsInked(items[1..]);
      InkAfterComma(rest);
      ItemsRead(items[1..], list + [items[0]]);
      assert list + [items[0]] + items[1..] == list + items;
    }
  }

  lemma InkAfterComma(rest: string)
    requires IsInked(rest)
    ensures Trim(", " + rest) == ", " + rest && Trim((", " + rest)[1..]) == rest && rest != ""
  {
    hide Trim;
    TrimKeeps(", " + rest);
    assert (", " + rest)[1..] == " " + rest;
    TrimKeeps(rest);
  }

  /** A list as written is read back sorted, with each entry once. */
  lemma ListReads(list: seq<string>)
    requires forall item :: item in list ==> Valid(item)
    ensures ReadList(RenderList(list)) == Some(Sorted(SetOf(list)))
  {
    hide Sorted, Joined, ReadItems, Valid;
    var items := Sorted(SetOf(list));
    assert forall i :: 0 <= i < |items| ==> items[i] in items;
    ItemsRead(items, []);
    var value := RenderList(list);
    assert value[1..|value| - 1] == Joined(items);
    assert [] + items == items;
  }

  // Written values fit on a line.

  /** Text that fits, on one line. */
  predicate OnOneLine(s: string) {
    TextFits(s) && '\n' !in s
  }

  lemma QuoteOnOneLine(s: string)
    requires TextFits(s)
    ensures OnOneLine(Quote(s))
  {
    hide TextFits, QuoteInner;
    QuoteFits(s);
    QuoteEnds(s, "");
  }

  lemma PrintableOnOneLine(s: string)
    requires IsPrintable(s)
    ensures OnOneLine(s)
  {
    hide TextFits;
    PrintableFits(s);
  }

  lemma LinesJoin(a: string, b: string)
    requires OnOneLine(a) && OnOneLine(b)
    ensures OnOneLine(a + b)
  {
    hide TextFits;
    TextAppend(a, b);
  }

  lemma ItemOnOneLine(item: string)
    requires TextFits(item)
    ensures OnOneLine(ItemText(item))
  {
    hide KnotLayout.IsLocalID, OnOneLine, TextFits, Quote;
    if KnotLayout.IsLocalID(item) {
      LocalIdIsToken(item);
      PrintableOnOneLine(item);
    } else {
      QuoteOnOneLine(item);
    }
  }

  lemma {:induction false} JoinedOnOneLine(items: seq<string>)
    requires forall i :: 0 <= i < |items| ==> TextFits(items[i])
    ensures OnOneLine(Joined(items))
  {
    hide ItemText, OnOneLine, TextFits;
    if items == [] {
      PrintableOnOneLine("");
    } else {
      ItemOnOneLine(items[0]);
      if |items| > 1 {
        JoinedOnOneLine(items[1..]);
        PrintableOnOneLine(", ");
        LinesJoin(ItemText(items[0]), ", ");
        LinesJoin(ItemText(items[0]) + ", ", Joined(items[1..]));
      }
    }
  }

  lemma ListOnOneLine(list: seq<string>)
    requires forall item :: item in list ==> TextFits(item)
    ensures OnOneLine(RenderList(list))
  {
    hide Joined, OnOneLine, TextFits, Sorted;
    var items := Sorted(SetOf(list));
    assert forall i :: 0 <= i < |items| ==> items[i] in items;
    JoinedOnOneLine(items);
    PrintableOnOneLine("[");
    PrintableOnOneLine("]");
    LinesJoin("[", Joined(items));
    LinesJoin("[" + Joined(items), "]");
  }
}
